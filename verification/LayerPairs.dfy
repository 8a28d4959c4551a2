/** What teleportation within layers comes to, pair by pair: every two different members of a module teleport to one
    another in the layers they share. Nothing here but the lists of layers of the nodes. */
module LayerPairs {
  import opened Sums
  import opened FlowNetwork
  import opened BoundaryFlow
  import opened Partitions
  import opened LinkTables
  import opened LayerTeleports

  /** Teleport weight of a node in one layer. */
  function WeightIn(carried: seq<LayerTeleFlowData>, l: nat): real
  {
    if carried == [] then 0.0
    else
      var e := carried[|carried| - 1];
      WeightIn(carried[..|carried| - 1], l) + (if e.layerId == l then e.teleportWeight else 0.0)
  }

  /** Teleportation from the first node to the second, over all layers. */
  function Sent(from: seq<LayerTeleFlowData>, to: seq<LayerTeleFlowData>): real
  {
    if from == [] then 0.0
    else
      var e := from[|from| - 1];
      Sent(from[..|from| - 1], to) + e.teleportFlow * WeightIn(to, e.layerId)
  }

  /** What the first node sends to the second, or gets from it. */
  function Passed(layers: seq<seq<LayerTeleFlowData>>, i: nat, j: nat, out: bool): real
    requires i < |layers| && j < |layers|
  {
    if out then Sent(layers[i], layers[j]) else Sent(layers[j], layers[i])
  }

  /** The same between node a and the others of the first k nodes that are in module m. */
  function PassedWithin(layers: seq<seq<LayerTeleFlowData>>, index: seq<nat>, a: nat, m: nat, k: nat, out: bool): real
    requires |layers| == |index| && a < |index| && k <= |index|
  {
    if k == 0 then 0.0
    else
      PassedWithin(layers, index, a, m, k - 1, out)
      + (if k - 1 != a && index[k - 1] == m then Passed(layers, a, k - 1, out) else 0.0)
  }

  /** What node a and the others of the first k nodes that are in module m send to one another. */
  function Exchanged(layers: seq<seq<LayerTeleFlowData>>, index: seq<nat>, a: nat, m: nat, k: nat): real
    requires |layers| == |index| && a < |index| && k <= |index|
  {
    if k == 0 then 0.0
    else
      Exchanged(layers, index, a, m, k - 1)
      + (if k - 1 != a && index[k - 1] == m then Sent(layers[a], layers[k - 1]) + Sent(layers[k - 1], layers[a])
         else 0.0)
  }

  /** What the first k nodes that are in module m send to one another, every pair once and both ways. */
  function AllExchanged(layers: seq<seq<LayerTeleFlowData>>, index: seq<nat>, m: nat, k: nat): real
    requires |layers| == |index| && k <= |index|
  {
    if k == 0 then 0.0
    else
      AllExchanged(layers, index, m, k - 1)
      + (if index[k - 1] == m then Exchanged(layers, index, k - 1, m, k - 1) else 0.0)
  }

  // ----- Layer by layer -----

  lemma {:induction false} WeightOfLayer(carried: seq<LayerTeleFlowData>, numLayers: nat, l: nat)
    requires NodeLayersOk(carried, numLayers)
    ensures WeightIn(carried, l) == LayerOf(carried, l).teleportWeight
  {
    if carried != [] {
      var rest, e := carried[..|carried| - 1], carried[|carried| - 1];
      WeightOfLayer(rest, numLayers, l);
      if e.layerId == l {
        assert !HasLayer(rest, l);
        LayerOfAbsent(rest, numLayers, l);
      }
    }
  }

  /** What one sends to the other in one layer. */
  function SentAt(layers: seq<seq<LayerTeleFlowData>>, l: nat, i: nat, j: nat): real
    requires i < |layers| && j < |layers|
  {
    LayerOf(layers[i], l).teleportFlow * LayerOf(layers[j], l).teleportWeight
  }

  function SentByLayer(layers: seq<seq<LayerTeleFlowData>>, n: nat, i: nat, j: nat): (r: seq<real>)
    requires i < |layers| && j < |layers|
    ensures |r| == n && forall l :: 0 <= l < n ==> r[l] == SentAt(layers, l, i, j)
  {
    seq(n, (l: nat) => SentAt(layers, l, i, j))
  }

  function SentByEntry(from: seq<LayerTeleFlowData>, to: seq<LayerTeleFlowData>): (r: seq<real>)
    ensures |r| == |from|
    ensures forall k :: 0 <= k < |r| ==> r[k] == from[k].teleportFlow * WeightIn(to, from[k].layerId)
  {
    seq(|from|, k requires 0 <= k < |from| => from[k].teleportFlow * WeightIn(to, from[k].layerId))
  }

  lemma {:induction false} SentIsSum(from: seq<LayerTeleFlowData>, to: seq<LayerTeleFlowData>)
    ensures Sum(SentByEntry(from, to)) == Sent(from, to)
  {
    if from != [] {
      var n := |from| - 1;
      SentIsSum(from[..n], to);
      var xs := SentByEntry(from, to);
      forall k | 0 <= k < n ensures xs[..n][k] == SentByEntry(from[..n], to)[k] {
        assert xs[..n][k] == xs[k] && from[..n][k] == from[k];
      }
      assert xs[..n] == SentByEntry(from[..n], to);
    }
  }

  /** Over all layers it is what the entries say. */
  lemma {:induction false} SentOverLayers(net: LayeredNetwork, i: nat, j: nat)
    requires net.Valid() && i < |net.layers| && j < |net.layers|
    ensures Sum(SentByLayer(net.layers, net.numLayers, i, j)) == Sent(net.layers[i], net.layers[j])
  {
    var from, to := net.layers[i], net.layers[j];
    var xs, ids, ys := SentByLayer(net.layers, net.numLayers, i, j), LayerIds(from), SentByEntry(from, to);
    hide Sum, LayerOf, WeightIn, Sent, HasLayer;
    forall k | 0 <= k < |ids| ensures ids[k] < |xs| && ys[k] == xs[ids[k]] {
      LayerOfEntry(from, net.numLayers, k);
      WeightOfLayer(to, net.numLayers, ids[k]);
    }
    forall l | 0 <= l < |xs| && l !in ids ensures xs[l] == 0.0 {
      NotListed(from, l);
      LayerOfAbsent(from, net.numLayers, l);
    }
    SumSelect(xs, ids, ys);
    SentIsSum(from, to);
  }

  // ----- A bilinear form, pair by pair -----

  function Pairs(flows: seq<real>, weights: seq<real>, index: seq<nat>, a: nat, m: nat, k: nat): real
    requires |flows| == |weights| == |index| && a < |index| && k <= |index|
  {
    if k == 0 then 0.0
    else
      Pairs(flows, weights, index, a, m, k - 1)
      + (if k - 1 != a && index[k - 1] == m then flows[a] * weights[k - 1] + flows[k - 1] * weights[a] else 0.0)
  }

  function AllPairs(flows: seq<real>, weights: seq<real>, index: seq<nat>, m: nat, k: nat): real
    requires |flows| == |weights| == |index| && k <= |index|
  {
    if k == 0 then 0.0
    else
      AllPairs(flows, weights, index, m, k - 1)
      + (if index[k - 1] == m then Pairs(flows, weights, index, k - 1, m, k - 1) else 0.0)
  }

  /** The members among the first k nodes, node a left out. */
  function Others(w: seq<real>, index: seq<nat>, a: nat, m: nat, k: nat): real
    requires |w| == |index| && a < |index| && k <= |index|
  {
    Members(w[..k], index[..k], m) - (if a < k && index[a] == m then w[a] else 0.0)
  }

  lemma {:induction false} MembersNext(w: seq<real>, index: seq<nat>, m: nat, k: nat)
    requires |w| == |index| && 0 < k <= |index|
    ensures Members(w[..k], index[..k], m)
         == Members(w[..k - 1], index[..k - 1], m) + (if index[k - 1] == m then w[k - 1] else 0.0)
  {
    assert w[..k][..k - 1] == w[..k - 1] && index[..k][..k - 1] == index[..k - 1];
  }

  lemma {:induction false} OthersNext(w: seq<real>, index: seq<nat>, a: nat, m: nat, k: nat)
    requires |w| == |index| && a < |index| && 0 < k <= |index|
    ensures Others(w, index, a, m, k)
         == Others(w, index, a, m, k - 1) + (if k - 1 != a && index[k - 1] == m then w[k - 1] else 0.0)
  {
    hide Members;
    MembersNext(w, index, m, k);
  }

  lemma {:induction false} Spread(x: real, y: real, f: real, v: real, w: real, z: real)
    ensures (x + y) * v + f * (w + z) == x * v + f * w + (f * z + y * v)
  {
  }

  lemma {:induction false} PairsBilinear(flows: seq<real>, weights: seq<real>, index: seq<nat>, a: nat, m: nat, k: nat)
    requires |flows| == |weights| == |index| && a < |index| && k <= |index|
    ensures Pairs(flows, weights, index, a, m, k)
         == Others(flows, index, a, m, k) * weights[a] + flows[a] * Others(weights, index, a, m, k)
  {
    hide Others;
    if k == 0 {
      NoOthers(flows, index, a, m);
      NoOthers(weights, index, a, m);
    } else {
      PairsBilinear(flows, weights, index, a, m, k - 1);
      OthersNext(flows, index, a, m, k);
      OthersNext(weights, index, a, m, k);
      if k - 1 != a && index[k - 1] == m {
        Spread(Others(flows, index, a, m, k - 1), flows[k - 1], flows[a], weights[a],
               Others(weights, index, a, m, k - 1), weights[k - 1]);
      }
    }
  }

  lemma {:induction false} NoOthers(w: seq<real>, index: seq<nat>, a: nat, m: nat)
    requires |w| == |index| && a < |index|
    ensures Others(w, index, a, m, 0) == 0.0
  {
    MembersZero(w[..0], index[..0], m);
  }

  lemma {:induction false} Square(t: real, w: real, f: real, v: real)
    ensures (t + f) * (w + v) == t * w + (t * v + f * w) + f * v
  {
    assert (t + f) * (w + v) == t * (w + v) + f * (w + v);
  }

  lemma {:induction false} AllPairsBilinear(flows: seq<real>, weights: seq<real>, own: seq<real>, index: seq<nat>,
                                            m: nat, k: nat)
    requires |flows| == |weights| == |own| == |index| && k <= |index|
    requires forall i :: 0 <= i < |own| ==> own[i] == flows[i] * weights[i]
    ensures AllPairs(flows, weights, index, m, k)
         == Members(flows[..k], index[..k], m) * Members(weights[..k], index[..k], m)
            - Members(own[..k], index[..k], m)
  {
    hide Members, Pairs;
    if k == 0 {
      MembersZero(flows[..0], index[..0], m);
      MembersZero(own[..0], index[..0], m);
    } else {
      AllPairsBilinear(flows, weights, own, index, m, k - 1);
      MembersNext(flows, index, m, k);
      MembersNext(weights, index, m, k);
      MembersNext(own, index, m, k);
      PairsBilinear(flows, weights, index, k - 1, m, k - 1);
      Square(Members(flows[..k - 1], index[..k - 1], m), Members(weights[..k - 1], index[..k - 1], m),
             flows[k - 1], weights[k - 1]);
    }
  }

  // ----- Between a node and a module -----

  function FlowsIn(layers: seq<seq<LayerTeleFlowData>>, l: nat): (r: seq<real>)
    ensures |r| == |layers| && forall i :: 0 <= i < |r| ==> r[i] == LayerOf(layers[i], l).teleportFlow
  {
    Values(LayerNodes(layers, l), Teleport)
  }

  function WeightsIn(layers: seq<seq<LayerTeleFlowData>>, l: nat): (r: seq<real>)
    ensures |r| == |layers| && forall i :: 0 <= i < |r| ==> r[i] == LayerOf(layers[i], l).teleportWeight
  {
    Values(LayerNodes(layers, l), Weight)
  }

  function PairsByLayer(layers: seq<seq<LayerTeleFlowData>>, index: seq<nat>, n: nat, a: nat, m: nat,
                        k: nat): (r: seq<real>)
    requires |layers| == |index| && a < |index| && k <= |index|
    ensures |r| == n
    ensures forall l :: 0 <= l < n ==> r[l] == Pairs(FlowsIn(layers, l), WeightsIn(layers, l), index, a, m, k)
  {
    seq(n, (l: nat) => Pairs(FlowsIn(layers, l), WeightsIn(layers, l), index, a, m, k))
  }

  lemma {:induction false} PairsStep(layers: seq<seq<LayerTeleFlowData>>, index: seq<nat>, l: nat, a: nat, m: nat,
                                     k: nat)
    requires |layers| == |index| && a < |index| && 0 < k <= |index|
    ensures Pairs(FlowsIn(layers, l), WeightsIn(layers, l), index, a, m, k)
         == Pairs(FlowsIn(layers, l), WeightsIn(layers, l), index, a, m, k - 1)
            + (if k - 1 != a && index[k - 1] == m
               then SentAt(layers, l, a, k - 1) + SentAt(layers, l, k - 1, a) else 0.0)
  {
    hide LayerOf;
  }

  lemma {:induction false} PairsOverLayers(net: LayeredNetwork, index: seq<nat>, a: nat, m: nat, k: nat)
    requires net.Valid() && |net.layers| == |index| && a < |index| && k <= |index|
    ensures Sum(PairsByLayer(net.layers, index, net.numLayers, a, m, k)) == Exchanged(net.layers, index, a, m, k)
  {
    hide Sum, LayerOf, Sent, SentAt, Network.Valid, NodeLayersOk, FlowsIn, WeightsIn;
    var n := net.numLayers;
    var now := PairsByLayer(net.layers, index, n, a, m, k);
    if k == 0 {
      SumZero(now);
    } else {
      hide Pairs;
      var before := PairsByLayer(net.layers, index, n, a, m, k - 1);
      PairsOverLayers(net, index, a, m, k - 1);
      forall l: nat | l < n
        ensures now[l] == before[l]
                  + (if k - 1 != a && index[k - 1] == m
                     then SentAt(net.layers, l, a, k - 1) + SentAt(net.layers, l, k - 1, a) else 0.0)
      {
        PairsStep(net.layers, index, l, a, m, k);
      }
      if k - 1 != a && index[k - 1] == m {
        var out, back := SentByLayer(net.layers, n, a, k - 1), SentByLayer(net.layers, n, k - 1, a);
        var both := seq(n, l requires 0 <= l < n => out[l] + back[l]);
        SentOverLayers(net, a, k - 1);
        SentOverLayers(net, k - 1, a);
        SumPlus(out, back, both);
        SumPlus(before, both, now);
      } else {
        assert now == before;
      }
    }
  }

  /** One layer: the teleport term of the layer as a network is the sum over the pairs. */
  lemma {:induction false} BetweenIsPairs(layers: seq<seq<LayerTeleFlowData>>, index: seq<nat>, l: nat, a: nat, m: nat)
    requires |layers| == |index| && a < |index|
    ensures TeleportBetween(LayerNet(layers, l), index, a, m)
         == Pairs(FlowsIn(layers, l), WeightsIn(layers, l), index, a, m, |index|)
  {
    hide Members, LayerOf, Pairs;
    var n, nodes := |index|, LayerNodes(layers, l);
    var flows, weights := FlowsIn(layers, l), WeightsIn(layers, l);
    PairsBilinear(flows, weights, index, a, m, n);
    assert flows[..n] == flows && weights[..n] == weights && index[..n] == index;
    var d := MemberData(nodes, index, m);
    assert d.Get(Teleport) == d.teleportFlow && d.Get(Weight) == d.teleportWeight;
    assert nodes[a].teleportFlow == flows[a] && nodes[a].teleportWeight == weights[a];
  }

  /** What the layers add to the flow between a node and a module is what the node and the other members send to
      one another. */
  lemma {:induction false} BetweensArePairs(net: LayeredNetwork, index: seq<nat>, a: nat, m: nat)
    requires net.Valid() && |net.layers| == |index| && a < |index|
    ensures Sum(LayerBetweens(net, index, a, m)) == Exchanged(net.layers, index, a, m, |index|)
  {
    hide Sum, NodeLayersOk, Network.Valid, Pairs, TeleportBetween, LayerOf, Exchanged;
    var xs := PairsByLayer(net.layers, index, net.numLayers, a, m, |index|);
    forall l | 0 <= l < net.numLayers ensures LayerBetweens(net, index, a, m)[l] == xs[l] {
      BetweenIsPairs(net.layers, index, l, a, m);
    }
    assert LayerBetweens(net, index, a, m) == xs;
    PairsOverLayers(net, index, a, m, |index|);
  }

  // ----- Inside a module -----

  function AllPairsByLayer(layers: seq<seq<LayerTeleFlowData>>, index: seq<nat>, n: nat, m: nat,
                           k: nat): (r: seq<real>)
    requires |layers| == |index| && k <= |index|
    ensures |r| == n
    ensures forall l :: 0 <= l < n ==> r[l] == AllPairs(FlowsIn(layers, l), WeightsIn(layers, l), index, m, k)
  {
    seq(n, (l: nat) => AllPairs(FlowsIn(layers, l), WeightsIn(layers, l), index, m, k))
  }

  lemma {:induction false} AllPairsOverLayers(net: LayeredNetwork, index: seq<nat>, m: nat, k: nat)
    requires net.Valid() && |net.layers| == |index| && k <= |index|
    ensures Sum(AllPairsByLayer(net.layers, index, net.numLayers, m, k)) == AllExchanged(net.layers, index, m, k)
  {
    hide Sum, LayerOf, Pairs, Exchanged, Network.Valid, NodeLayersOk;
    var n := net.numLayers;
    var now := AllPairsByLayer(net.layers, index, n, m, k);
    if k == 0 {
      SumZero(now);
    } else {
      var before := AllPairsByLayer(net.layers, index, n, m, k - 1);
      AllPairsOverLayers(net, index, m, k - 1);
      if index[k - 1] == m {
        PairsOverLayers(net, index, k - 1, m, k - 1);
        SumPlus(before, PairsByLayer(net.layers, index, n, k - 1, m, k - 1), now);
      } else {
        assert now == before;
      }
    }
  }

  lemma {:induction false} InternalIsPairs(layers: seq<seq<LayerTeleFlowData>>, index: seq<nat>, l: nat, m: nat)
    requires |layers| == |index|
    ensures InternalTeleport(LayerNet(layers, l), index, m)
         == AllPairs(FlowsIn(layers, l), WeightsIn(layers, l), index, m, |index|)
  {
    hide Members, LayerOf, AllPairs;
    var n, nodes := |index|, LayerNodes(layers, l);
    var flows, weights, own := FlowsIn(layers, l), WeightsIn(layers, l), SelfTeleports(nodes);
    forall i | 0 <= i < n ensures own[i] == flows[i] * weights[i] {
      assert own[i] == nodes[i].Teleported();
    }
    AllPairsBilinear(flows, weights, own, index, m, n);
    assert flows[..n] == flows && weights[..n] == weights && own[..n] == own && index[..n] == index;
    var d := MemberData(nodes, index, m);
    assert d.Get(Teleport) == d.teleportFlow && d.Get(Weight) == d.teleportWeight;
  }

  /** What the layers take off the boundary flow of a module is what its members send to one another. */
  lemma {:induction false} InternalsArePairs(net: LayeredNetwork, index: seq<nat>, m: nat)
    requires net.Valid() && |net.layers| == |index|
    ensures Sum(LayerInternals(net, index, m)) == AllExchanged(net.layers, index, m, |index|)
  {
    hide Sum, NodeLayersOk, Network.Valid, AllPairs, InternalTeleport, LayerOf, AllExchanged;
    var xs := AllPairsByLayer(net.layers, index, net.numLayers, m, |index|);
    forall l | 0 <= l < net.numLayers ensures LayerInternals(net, index, m)[l] == xs[l] {
      InternalIsPairs(net.layers, index, l, m);
    }
    assert LayerInternals(net, index, m) == xs;
    AllPairsOverLayers(net, index, m, |index|);
  }

  // ----- How strongly a node is connected to a module -----

  /** The flow out along links, the teleportation of the network to the other members, and what the node sends to them
      in the layers they share. */
  ghost function LayeredExit(net: LayeredNetwork, index: seq<nat>, a: nat, m: nat): real
    requires net.Valid() && net.base.Partition(index) && a < |index|
  {
    LinkExit(net.base, index, a, m) + PassedWithin(net.layers, index, a, m, |index|, true)
  }

  /** The exit parts that the layers of the node add to the delta of a module, found in the module's row. */
  function LayerExits(row: map<nat, LayerTeleFlowData>, carried: seq<LayerTeleFlowData>, own: bool): (r: seq<real>)
    ensures |r| == |carried|
  {
    seq(|carried|, k requires 0 <= k < |carried| => LayerPart(row, carried[k], own).deltaExit)
  }

  /** One layer of the node: its flow, to the weights of the others of the first k nodes that are members. */
  function ExitsByEntry(net: LayeredNetwork, index: seq<nat>, a: nat, m: nat, k: nat): (r: seq<real>)
    requires |net.layers| == |index| && a < |index| && k <= |index|
    ensures |r| == |net.layers[a]|
    ensures forall i :: 0 <= i < |r| ==>
              r[i] == net.layers[a][i].teleportFlow
                      * Others(WeightsIn(net.layers, net.layers[a][i].layerId), index, a, m, k)
  {
    seq(|net.layers[a]|, i requires 0 <= i < |net.layers[a]| =>
      net.layers[a][i].teleportFlow * Others(WeightsIn(net.layers, net.layers[a][i].layerId), index, a, m, k))
  }

  lemma {:induction false} ExitsNext(net: LayeredNetwork, index: seq<nat>, a: nat, m: nat, k: nat, i: nat)
    requires net.Valid() && |net.layers| == |index| && a < |index| && 0 < k <= |index| && i < |net.layers[a]|
    ensures ExitsByEntry(net, index, a, m, k)[i]
         == ExitsByEntry(net, index, a, m, k - 1)[i]
            + (if k - 1 != a && index[k - 1] == m then SentByEntry(net.layers[a], net.layers[k - 1])[i] else 0.0)
  {
    hide Others, NodeLayersOk, Network.Valid, LayerOf, WeightIn;
    var e := net.layers[a][i];
    var weights := WeightsIn(net.layers, e.layerId);
    OthersNext(weights, index, a, m, k);
    WeightOfLayer(net.layers[k - 1], net.numLayers, e.layerId);
    Factor(e.teleportFlow, Others(weights, index, a, m, k - 1), weights[k - 1]);
  }

  lemma {:induction false} Factor(f: real, x: real, y: real)
    ensures f * (x + y) == f * x + f * y && (x + y) * f == x * f + y * f
  {
  }

  lemma {:induction false} ExitsArePassed(net: LayeredNetwork, index: seq<nat>, a: nat, m: nat, k: nat)
    requires net.Valid() && |net.layers| == |index| && a < |index| && k <= |index|
    ensures Sum(ExitsByEntry(net, index, a, m, k)) == PassedWithin(net.layers, index, a, m, k, true)
  {
    hide Others, Sum, Sent, WeightIn, LayerOf, NodeLayersOk, Network.Valid;
    var now := ExitsByEntry(net, index, a, m, k);
    if k == 0 {
      forall i | 0 <= i < |now| ensures now[i] == 0.0 {
        NoOthers(WeightsIn(net.layers, net.layers[a][i].layerId), index, a, m);
      }
      SumZero(now);
    } else {
      var before := ExitsByEntry(net, index, a, m, k - 1);
      ExitsArePassed(net, index, a, m, k - 1);
      forall i | 0 <= i < |now|
        ensures now[i] == before[i]
                  + (if k - 1 != a && index[k - 1] == m then SentByEntry(net.layers[a], net.layers[k - 1])[i] else 0.0)
      {
        ExitsNext(net, index, a, m, k, i);
      }
      if k - 1 != a && index[k - 1] == m {
        SentIsSum(net.layers[a], net.layers[k - 1]);
        SumPlus(before, SentByEntry(net.layers[a], net.layers[k - 1]), now);
      } else {
        assert now == before;
      }
    }
  }

  lemma {:induction false} LayerExitIs(net: LayeredNetwork, index: seq<nat>, a: nat, m: nat,
                                       row: map<nat, LayerTeleFlowData>, k: nat)
    requires net.Valid() && |net.layers| == |index| && a < |index| && k < |net.layers[a]|
    requires LayerRowIs(row, net.layers, index, m)
    ensures LayerExits(row, net.layers[a], index[a] == m)[k] == ExitsByEntry(net, index, a, m, |index|)[k]
  {
    hide NodeLayersOk, Network.Valid, HasLayer, Members, LayerOf;
    var carried, n := net.layers[a], |index|;
    var e := carried[k];
    var l, weights := e.layerId, WeightsIn(net.layers, e.layerId);
    assert HoldsLayer(row, net.layers, index, l, m);
    LayerOfEntry(carried, net.numLayers, k);
    NodeHasLayer(carried, k);
    LayerDataEmpty(net, index, l, m);
    assert weights[..n] == weights && index[..n] == index;
    var d := LayerData(net.layers, index, l, m);
    assert d.Get(Weight) == d.teleportWeight;
  }

  /** The exit parts together are what the node sends to the other members. */
  lemma {:induction false} LayerExitsArePassed(net: LayeredNetwork, index: seq<nat>, a: nat, m: nat,
                                               row: map<nat, LayerTeleFlowData>)
    requires net.Valid() && |net.layers| == |index| && a < |index| && LayerRowIs(row, net.layers, index, m)
    ensures Sum(LayerExits(row, net.layers[a], index[a] == m))
         == PassedWithin(net.layers, index, a, m, |index|, true)
  {
    hide LayerRowIs, LayerPart, Others, Sum, NodeLayersOk, Network.Valid, PassedWithin;
    var xs, ys := LayerExits(row, net.layers[a], index[a] == m), ExitsByEntry(net, index, a, m, |index|);
    forall k | 0 <= k < |xs| ensures xs[k] == ys[k] {
      LayerExitIs(net, index, a, m, row, k);
    }
    assert xs == ys;
    ExitsArePassed(net, index, a, m, |index|);
  }

  // ----- The border of a module -----

  /** What node a passes to, or gets from, all others of the first k nodes. */
  function PassedAll(layers: seq<seq<LayerTeleFlowData>>, a: nat, k: nat, out: bool): real
    requires a < |layers| && k <= |layers|
  {
    if k == 0 then 0.0
    else PassedAll(layers, a, k - 1, out) + (if k - 1 != a then Passed(layers, a, k - 1, out) else 0.0)
  }

  /** What node a passes to, or gets from, the first k nodes as far as they are outside module m. */
  function PassedOutside(layers: seq<seq<LayerTeleFlowData>>, index: seq<nat>, a: nat, m: nat, k: nat, out: bool): real
    requires |layers| == |index| && a < |index| && k <= |index|
  {
    if k == 0 then 0.0
    else
      PassedOutside(layers, index, a, m, k - 1, out)
      + (if index[k - 1] != m then Passed(layers, a, k - 1, out) else 0.0)
  }

  /** What the members of module m among the first k nodes pass to, or get from, the nodes outside it. */
  function Across(layers: seq<seq<LayerTeleFlowData>>, index: seq<nat>, m: nat, k: nat, out: bool): real
    requires |layers| == |index| && k <= |index|
  {
    if k == 0 then 0.0
    else
      Across(layers, index, m, k - 1, out)
      + (if index[k - 1] == m then PassedOutside(layers, index, k - 1, m, |index|, out) else 0.0)
  }

  lemma {:induction false} InsideOrOutside(layers: seq<seq<LayerTeleFlowData>>, index: seq<nat>, a: nat, m: nat, k: nat,
                                           out: bool)
    requires |layers| == |index| && a < |index| && k <= |index| && index[a] == m
    ensures PassedAll(layers, a, k, out)
         == PassedWithin(layers, index, a, m, k, out) + PassedOutside(layers, index, a, m, k, out)
  {
    hide Passed;
    if k > 0 { InsideOrOutside(layers, index, a, m, k - 1, out); }
  }

  lemma {:induction false} BothWays(layers: seq<seq<LayerTeleFlowData>>, index: seq<nat>, a: nat, m: nat, k: nat)
    requires |layers| == |index| && a < |index| && k <= |index|
    ensures Exchanged(layers, index, a, m, k)
         == PassedWithin(layers, index, a, m, k, true) + PassedWithin(layers, index, a, m, k, false)
  {
    hide Sent;
    if k > 0 { BothWays(layers, index, a, m, k - 1); }
  }

  /** What the first i nodes, as far as they are in module m, pass to members among the first k. */
  function PassedByMembers(layers: seq<seq<LayerTeleFlowData>>, index: seq<nat>, m: nat, i: nat, k: nat,
                           out: bool): real
    requires |layers| == |index| && i <= |index| && k <= |index|
  {
    if i == 0 then 0.0
    else
      PassedByMembers(layers, index, m, i - 1, k, out)
      + (if index[i - 1] == m then PassedWithin(layers, index, i - 1, m, k, out) else 0.0)
  }

  lemma {:induction false} OneMoreReceiver(layers: seq<seq<LayerTeleFlowData>>, index: seq<nat>, m: nat, i: nat, k: nat,
                                           out: bool)
    requires |layers| == |index| && i <= k < |index|
    ensures PassedByMembers(layers, index, m, i, k + 1, out)
         == PassedByMembers(layers, index, m, i, k, out)
            + (if index[k] == m then PassedWithin(layers, index, k, m, i, !out) else 0.0)
  {
    hide Sent;
    if i > 0 { OneMoreReceiver(layers, index, m, i - 1, k, out); }
  }

  /** Member by member, every pair is counted once. */
  lemma {:induction false} MembersPass(layers: seq<seq<LayerTeleFlowData>>, index: seq<nat>, m: nat, k: nat, out: bool)
    requires |layers| == |index| && k <= |index|
    ensures PassedByMembers(layers, index, m, k, k, out) == AllExchanged(layers, index, m, k)
  {
    hide Passed, Exchanged;
    if k > 0 {
      MembersPass(layers, index, m, k - 1, out);
      OneMoreReceiver(layers, index, m, k - 1, k - 1, out);
      BothWays(layers, index, k - 1, m, k - 1);
    }
  }

  function AllPassed(layers: seq<seq<LayerTeleFlowData>>, out: bool): (r: seq<real>)
    ensures |r| == |layers|
    ensures forall a :: 0 <= a < |r| ==> r[a] == PassedAll(layers, a, |layers|, out)
  {
    seq(|layers|, a requires 0 <= a < |layers| => PassedAll(layers, a, |layers|, out))
  }

  lemma {:induction false} MembersPassAll(layers: seq<seq<LayerTeleFlowData>>, index: seq<nat>, m: nat, k: nat,
                                          out: bool)
    requires |layers| == |index| && k <= |index|
    ensures Members(AllPassed(layers, out)[..k], index[..k], m)
         == PassedByMembers(layers, index, m, k, |index|, out) + Across(layers, index, m, k, out)
  {
    hide PassedAll, PassedWithin, PassedOutside, Members;
    if k == 0 {
      MembersZero(AllPassed(layers, out)[..0], index[..0], m);
    } else {
      MembersPassAll(layers, index, m, k - 1, out);
      MembersNext(AllPassed(layers, out), index, m, k);
      if index[k - 1] == m { InsideOrOutside(layers, index, k - 1, m, |index|, out); }
    }
  }

  /** Enter and exit flow of every node: its links, and what it gets from and sends to all other nodes. */
  ghost predicate LayersRecorded(net: LayeredNetwork)
    requires |net.layers| == |net.base.nodes|
  {
    var n := |net.layers|;
    forall a :: 0 <= a < n ==>
      && net.base.nodes[a].exitFlow == OutSum(net.base.edges, a) + PassedAll(net.layers, a, n, true)
      && net.base.nodes[a].enterFlow == InSum(net.base.edges, a) + PassedAll(net.layers, a, n, false)
  }

  /** So what a module keeps is its border: the links across it, and what its members send to and get from the nodes
      outside it in the layers they share. */
  lemma {:induction false} LayeredBorder(net: LayeredNetwork, index: seq<nat>, m: nat)
    requires net.Valid() && |net.base.nodes| == |index| && LayersRecorded(net) && !net.base.recordedTeleportation
    ensures LayeredModuleData(net, index, m).exitFlow
         == OutOf(net.base.edges, index, m) + Across(net.layers, index, m, |index|, true)
    ensures LayeredModuleData(net, index, m).enterFlow
         == InTo(net.base.edges, index, m) + Across(net.layers, index, m, |index|, false)
  {
    hide Sum, AllExchanged, OutSum, InSum, PassedAll, PassedByMembers, Across, NodeLayersOk, Members, OutOf, InTo,
         Internal, EdgesOk;
    var n, nodes, edges := |index|, net.base.nodes, net.base.edges;
    InternalsArePairs(net, index, m);
    LinksOfModule(edges, index, m);
    MembersPass(net.layers, index, m, n, true);
    MembersPass(net.layers, index, m, n, false);
    MembersPassAll(net.layers, index, m, n, true);
    MembersPassAll(net.layers, index, m, n, false);
    var sent, got := AllPassed(net.layers, true), AllPassed(net.layers, false);
    assert sent[..n] == sent && got[..n] == got && index[..n] == index;
    MembersPlus(OutSums(edges, n), sent, Values(nodes, Exit), index, m);
    MembersPlus(InSums(edges, n), got, Values(nodes, Enter), index, m);
    var d := MemberData(nodes, index, m);
    assert d.Get(Exit) == d.exitFlow && d.Get(Enter) == d.enterFlow;
  }

  // ----- Every node in one layer -----

  /** Weight, or flow, of the first k nodes in a layer, node a left out. */
  function OthersIn(layers: seq<seq<LayerTeleFlowData>>, l: nat, a: nat, k: nat, weight: bool): real
    requires a < |layers| && k <= |layers|
  {
    if k == 0 then 0.0
    else
      var e := LayerOf(layers[k - 1], l);
      OthersIn(layers, l, a, k - 1, weight)
      + (if k - 1 == a then 0.0 else if weight then e.teleportWeight else e.teleportFlow)
  }

  lemma {:induction false} SentOfOne(from: seq<LayerTeleFlowData>, to: seq<LayerTeleFlowData>, numLayers: nat)
    requires NodeLayersOk(from, numLayers) && NodeLayersOk(to, numLayers) && |from| == |to| == 1
    ensures Sent(from, to) == from[0].teleportFlow * LayerOf(to, from[0].layerId).teleportWeight
    ensures Sent(from, to) == LayerOf(from, to[0].layerId).teleportFlow * to[0].teleportWeight
  {
    WeightOfLayer(to, numLayers, from[0].layerId);
    assert from[..0] == [] && to[..0] == [];
  }

  /** A node in one layer sends its flow in proportion to the weights of the others of the layer, and gets its
      share of the flow of the others. */
  lemma {:induction false} PassedInOneLayer(net: LayeredNetwork, a: nat, k: nat)
    requires net.Valid() && a < |net.layers| && k <= |net.layers|
    requires forall i :: 0 <= i < |net.layers| ==> |net.layers[i]| == 1
    ensures var e := net.layers[a][0];
            && PassedAll(net.layers, a, k, true)
               == e.teleportFlow * OthersIn(net.layers, e.layerId, a, k, true)
            && PassedAll(net.layers, a, k, false)
               == OthersIn(net.layers, e.layerId, a, k, false) * e.teleportWeight
  {
    hide Sent, LayerOf, NodeLayersOk, Network.Valid;
    if k > 0 {
      var e := net.layers[a][0];
      PassedInOneLayer(net, a, k - 1);
      if k - 1 != a {
        SentOfOne(net.layers[a], net.layers[k - 1], net.numLayers);
        SentOfOne(net.layers[k - 1], net.layers[a], net.numLayers);
        var other := LayerOf(net.layers[k - 1], e.layerId);
        Factor(e.teleportFlow, OthersIn(net.layers, e.layerId, a, k - 1, true), other.teleportWeight);
        Factor(e.teleportWeight, OthersIn(net.layers, e.layerId, a, k - 1, false), other.teleportFlow);
      }
    }
  }

  /** The flow calculation in these terms: every node in one layer, the weights of a layer adding up to one. */
  lemma {:induction false} OneLayerRecorded(net: LayeredNetwork)
    requires net.Valid() && forall i :: 0 <= i < |net.layers| ==> |net.layers[i]| == 1
    requires forall i :: 0 <= i < |net.layers| ==>
               var e, n := net.layers[i][0], |net.layers|;
               && OthersIn(net.layers, e.layerId, i, n, true) == 1.0 - e.teleportWeight
               && net.base.nodes[i].exitFlow
                  == OutSum(net.base.edges, i) + e.teleportFlow * (1.0 - e.teleportWeight)
               && net.base.nodes[i].enterFlow
                  == InSum(net.base.edges, i) + OthersIn(net.layers, e.layerId, i, n, false) * e.teleportWeight
    ensures LayersRecorded(net)
  {
    hide PassedAll, OutSum, InSum, OthersIn, NodeLayersOk, Network.Valid;
    forall a | 0 <= a < |net.layers|
      ensures net.base.nodes[a].exitFlow
           == OutSum(net.base.edges, a) + PassedAll(net.layers, a, |net.layers|, true)
      ensures net.base.nodes[a].enterFlow
           == InSum(net.base.edges, a) + PassedAll(net.layers, a, |net.layers|, false)
    {
      PassedInOneLayer(net, a, |net.layers|);
    }
  }
}
