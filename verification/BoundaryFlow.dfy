/** Enter and exit flow of the leaf nodes, and what module data means for a network that is
    initialised that way: the flow across the module's border.

    This is the reference the incremental bookkeeping is measured against: members' sums minus
    internal flow is the flow that crosses the border, in directed and undirected clustering and
    with recorded teleportation. */
module BoundaryFlow {
  import opened Sums
  import opened FlowNetwork

  // ----- Flow of the links at one node and at the border of one module -----

  function OutSum(edges: seq<Edge>, a: nat): real
  {
    if edges == [] then 0.0
    else OutSum(edges[..|edges| - 1], a) + (if edges[|edges| - 1].source == a then edges[|edges| - 1].flow else 0.0)
  }

  function InSum(edges: seq<Edge>, a: nat): real
  {
    if edges == [] then 0.0
    else InSum(edges[..|edges| - 1], a) + (if edges[|edges| - 1].target == a then edges[|edges| - 1].flow else 0.0)
  }

  /** Flow of the links that leave module m. */
  function OutOf(edges: seq<Edge>, index: seq<nat>, m: nat): real
    requires EdgesOk(edges, |index|)
  {
    if edges == [] then 0.0
    else
      var e := edges[|edges| - 1];
      OutOf(edges[..|edges| - 1], index, m) + (if index[e.source] == m && index[e.target] != m then e.flow else 0.0)
  }

  /** Flow of the links that enter module m. */
  function InTo(edges: seq<Edge>, index: seq<nat>, m: nat): real
    requires EdgesOk(edges, |index|)
  {
    if edges == [] then 0.0
    else
      var e := edges[|edges| - 1];
      InTo(edges[..|edges| - 1], index, m) + (if index[e.source] != m && index[e.target] == m then e.flow else 0.0)
  }

  function OutSums(edges: seq<Edge>, n: nat): (r: seq<real>)
    ensures |r| == n && forall i :: 0 <= i < n ==> r[i] == OutSum(edges, i)
  {
    seq(n, (i: nat) => OutSum(edges, i))
  }

  function InSums(edges: seq<Edge>, n: nat): (r: seq<real>)
    ensures |r| == n && forall i :: 0 <= i < n ==> r[i] == InSum(edges, i)
  {
    seq(n, (i: nat) => InSum(edges, i))
  }

  /** The members' links either stay inside the module or cross its border. */
  lemma {:induction false} LinksOfModule(edges: seq<Edge>, index: seq<nat>, m: nat)
    requires EdgesOk(edges, |index|)
    ensures Members(OutSums(edges, |index|), index, m) == Internal(edges, index, m) + OutOf(edges, index, m)
    ensures Members(InSums(edges, |index|), index, m) == Internal(edges, index, m) + InTo(edges, index, m)
  {
    var n := |index|;
    if edges == [] {
      MembersZero(OutSums(edges, n), index, m);
      MembersZero(InSums(edges, n), index, m);
    } else {
      var e := edges[|edges| - 1];
      var init := edges[..|edges| - 1];
      LinksOfModule(init, index, m);
      MembersOne(OutSums(init, n), OutSums(edges, n), index, m, e.source);
      MembersOne(InSums(init, n), InSums(edges, n), index, m, e.target);
    }
  }

  // ----- Initialisation -----

  datatype Model = Model(teleportationProbability: real, undirected: bool, recordedTeleportation: bool)

  predicate IsDangling(edges: seq<Edge>, a: nat)
  {
    forall k :: 0 <= k < |edges| ==> edges[k].source != a
  }

  /** A node is dangling exactly if no flow leaves it along links, as long as links have flow. */
  lemma {:induction false} DanglingMeans(edges: seq<Edge>, a: nat)
    requires forall k :: 0 <= k < |edges| ==> edges[k].flow > 0.0
    ensures OutSum(edges, a) >= 0.0 && (IsDangling(edges, a) <==> OutSum(edges, a) == 0.0)
  {
    if edges != [] {
      var n := |edges| - 1;
      DanglingMeans(edges[..n], a);
      if IsDangling(edges[..n], a) && edges[n].source != a {
        forall k | 0 <= k < |edges| ensures edges[k].source != a {
          if k < n { assert edges[..n][k].source != a; }
        }
      }
      if IsDangling(edges, a) {
        forall k | 0 <= k < n ensures edges[..n][k].source != a {
          assert edges[k].source != a;
        }
      }
    }
  }

  /** Teleportation fields of a leaf node, as a function of its flow and of whether it has outlinks. */
  ghost predicate TeleportInitialised(model: Model, edges: seq<Edge>, d: FlowData, a: nat)
  {
    && d.teleportSourceFlow == d.flow
    && d.teleportFlow == (if IsDangling(edges, a) then d.flow else model.teleportationProbability * d.flow)
    && d.danglingFlow == (if IsDangling(edges, a) then d.flow else 0.0)
  }

  /** Recorded teleportation that enters and leaves a single node. */
  function TeleportExit(model: Model, d: FlowData): real
  {
    var alpha := model.teleportationProbability;
    (alpha * d.flow + (1.0 - alpha) * d.danglingFlow) * (1.0 - d.teleportWeight)
  }

  function TeleportEnter(model: Model, sumDangling: real, d: FlowData): real
  {
    var alpha := model.teleportationProbability;
    (alpha * (1.0 - d.flow) + (1.0 - alpha) * (sumDangling - d.danglingFlow)) * d.teleportWeight
  }

  ghost predicate Initialised(model: Model, edges: seq<Edge>, nodes: seq<FlowData>)
  {
    && EdgesOk(edges, |nodes|)
    && (forall a :: 0 <= a < |nodes| ==> TeleportInitialised(model, edges, nodes[a], a))
    && (model.undirected ==>
          forall a :: 0 <= a < |nodes| ==>
            nodes[a].enterFlow == nodes[a].exitFlow == OutSum(edges, a) / 2.0 + InSum(edges, a) / 2.0)
    && (!model.undirected ==>
          var recorded := model.recordedTeleportation;
          var sumDangling := Sum(Values(nodes, Dangling));
          forall a :: 0 <= a < |nodes| ==>
            && nodes[a].exitFlow == OutSum(edges, a) + (if recorded then TeleportExit(model, nodes[a]) else 0.0)
            && nodes[a].enterFlow == InSum(edges, a)
               + (if recorded then TeleportEnter(model, sumDangling, nodes[a]) else 0.0))
  }

  /** Teleportation fields of the leaf nodes, with enter and exit flow still zero. */
  ghost predicate Started(model: Model, edges: seq<Edge>, leaves: seq<FlowData>, nodes: seq<FlowData>)
  {
    && |nodes| == |leaves|
    && forall a :: 0 <= a < |nodes| ==>
         && TeleportInitialised(model, edges, nodes[a], a) && nodes[a].enterFlow == nodes[a].exitFlow == 0.0
         && nodes[a].flow == leaves[a].flow && nodes[a].teleportWeight == leaves[a].teleportWeight
  }

  method InitTeleportFlow(model: Model, edges: seq<Edge>, leaves: seq<FlowData>)
    returns (nodes: seq<FlowData>, sumDangling: real)
    ensures Started(model, edges, leaves, nodes)
    ensures sumDangling == Sum(Values(nodes, Dangling))
  {
    hide IsDangling;
    sumDangling := 0.0;
    nodes := [];
    for a := 0 to |leaves|
      invariant Started(model, edges, leaves[..a], nodes)
      invariant sumDangling == Sum(Values(nodes, Dangling))
    {
      var d := leaves[a].(enterFlow := 0.0, exitFlow := 0.0, danglingFlow := 0.0,
                          teleportFlow := model.teleportationProbability * leaves[a].flow,
                          teleportSourceFlow := leaves[a].flow);
      if IsDangling(edges, a) {
        d := d.(teleportFlow := d.flow, danglingFlow := d.flow);
        sumDangling := sumDangling + d.flow;
      }
      assert Values(nodes + [d], Dangling) == Values(nodes, Dangling) + [d.danglingFlow];
      SumAppend(Values(nodes, Dangling), d.danglingFlow);
      nodes := nodes + [d];
    }
    assert leaves[..|leaves|] == leaves;
  }

  /** A node with the link flow of its own links added; half per direction when undirected. */
  function WithLinks(model: Model, edges: seq<Edge>, d: FlowData, a: nat): FlowData
  {
    if model.undirected then d.Shift(OutSum(edges, a) / 2.0 + InSum(edges, a) / 2.0)
    else d.(exitFlow := d.exitFlow + OutSum(edges, a), enterFlow := d.enterFlow + InSum(edges, a))
  }

  /** Links are visited in list order instead of node by node. */
  method AddLinkFlow(model: Model, edges: seq<Edge>, base: seq<FlowData>) returns (nodes: seq<FlowData>)
    requires EdgesOk(edges, |base|)
    ensures |nodes| == |base|
    ensures forall a :: 0 <= a < |nodes| ==> nodes[a] == WithLinks(model, edges, base[a], a)
  {
    nodes := base;
    for k := 0 to |edges|
      invariant |nodes| == |base|
      invariant forall a :: 0 <= a < |nodes| ==> nodes[a] == WithLinks(model, edges[..k], base[a], a)
    {
      assert edges[..k + 1][..k] == edges[..k];
      var e := edges[k];
      var source, target := nodes[e.source], nodes[e.target];
      if model.undirected {
        var half := e.flow / 2.0;
        nodes := nodes[e.source := source.Shift(half)][e.target := target.Shift(half)];
      } else {
        nodes := nodes[e.source := source.(exitFlow := source.exitFlow + e.flow)]
                      [e.target := target.(enterFlow := target.enterFlow + e.flow)];
      }
    }
    assert edges[..|edges|] == edges;
  }

  function WithTeleport(model: Model, sumDangling: real, d: FlowData): FlowData
  {
    d.(exitFlow := d.exitFlow + TeleportExit(model, d), enterFlow := d.enterFlow + TeleportEnter(model, sumDangling, d))
  }

  /** Enter and exit flow of the leaf nodes, from link flow and recorded teleportation. */
  method InitEnterExitFlow(model: Model, edges: seq<Edge>, leaves: seq<FlowData>) returns (nodes: seq<FlowData>)
    requires EdgesOk(edges, |leaves|)
    ensures |nodes| == |leaves|
    ensures Initialised(model, edges, nodes)
    ensures forall a :: 0 <= a < |nodes| ==>
              nodes[a].flow == leaves[a].flow && nodes[a].teleportWeight == leaves[a].teleportWeight
  {
    hide OutSum, InSum, EdgesOk, TeleportExit, TeleportEnter, IsDangling;
    var base, sumDangling := InitTeleportFlow(model, edges, leaves);
    nodes := AddLinkFlow(model, edges, base);
    ghost var linked := nodes;
    if !model.undirected && model.recordedTeleportation {
      for a := 0 to |nodes|
        invariant |nodes| == |linked|
        invariant forall b :: 0 <= b < |nodes| ==>
                    nodes[b] == if b >= a then linked[b] else WithTeleport(model, sumDangling, linked[b])
      {
        nodes := nodes[a := WithTeleport(model, sumDangling, nodes[a])];
      }
    }
    assert Values(nodes, Dangling) == Values(base, Dangling);
    forall a | 0 <= a < |nodes|
      ensures TeleportExit(model, nodes[a]) == TeleportExit(model, linked[a])
      ensures TeleportEnter(model, sumDangling, nodes[a]) == TeleportEnter(model, sumDangling, linked[a])
    {
      SameTeleport(model, sumDangling, nodes[a], linked[a]);
    }
  }

  lemma {:induction false} SameTeleport(model: Model, sumDangling: real, d: FlowData, e: FlowData)
    requires d.flow == e.flow && d.danglingFlow == e.danglingFlow && d.teleportWeight == e.teleportWeight
    ensures TeleportExit(model, d) == TeleportExit(model, e)
    ensures TeleportEnter(model, sumDangling, d) == TeleportEnter(model, sumDangling, e)
  {
  }

  // ----- Module data is border flow -----

  /** The teleportation of a node is the same whether or not it is dangling, in these terms. */
  lemma {:induction false} TeleportOfNode(model: Model, edges: seq<Edge>, d: FlowData, a: nat)
    requires TeleportInitialised(model, edges, d, a)
    ensures d.teleportFlow
         == model.teleportationProbability * d.flow + (1.0 - model.teleportationProbability) * d.danglingFlow
    ensures TeleportExit(model, d) == d.teleportFlow - d.Teleported()
  {
    var alpha, t, w := model.teleportationProbability, d.teleportFlow, d.teleportWeight;
    assert t * (1.0 - w) == t - t * w;
  }

  /** Undirected: half of the flow of the links across the border, in each direction, less the teleportation
      inside the module if it is recorded, which was never added. */
  lemma {:induction false} UndirectedBorder(model: Model, net: Network, index: seq<nat>, m: nat)
    requires Initialised(model, net.edges, net.nodes) && |index| == |net.nodes| && model.undirected
    ensures net.Valid()
    ensures ModuleData(net, index, m).exitFlow
         == (OutOf(net.edges, index, m) + InTo(net.edges, index, m)) / 2.0 - InternalTeleport(net, index, m)
    ensures ModuleData(net, index, m).enterFlow == ModuleData(net, index, m).exitFlow
    ensures !net.recordedTeleportation ==> InternalTeleport(net, index, m) == 0.0
  {
    var n := |index|;
    LinksOfModule(net.edges, index, m);
    var outs, ins := OutSums(net.edges, n), InSums(net.edges, n);
    var exits := Values(net.nodes, Exit);
    var twice := seq(n, i requires 0 <= i < n => exits[i] + exits[i]);
    MembersPlus(exits, exits, twice, index, m);
    MembersPlus(outs, ins, twice, index, m);
    assert Values(net.nodes, Enter) == exits;
    var d := MemberData(net.nodes, index, m);
    assert d.Get(Exit) == Members(exits, index, m) && d.Get(Enter) == Members(Values(net.nodes, Enter), index, m);
    hide InternalTeleport;
  }

  /** Directed: the flow of the links out of and into the module, plus the recorded teleportation
      that leaves and enters it. */
  lemma {:induction false} DirectedBorder(model: Model, net: Network, index: seq<nat>, m: nat)
    requires Initialised(model, net.edges, net.nodes) && |index| == |net.nodes|
    requires !model.undirected && net.recordedTeleportation == model.recordedTeleportation
    requires model.recordedTeleportation ==> Sum(Values(net.nodes, Flow)) == 1.0
    ensures net.Valid()
    ensures var d := ModuleData(net, index, m);
            var total := Sum(Values(net.nodes, Teleport));
            && d.exitFlow == OutOf(net.edges, index, m)
                 + (if model.recordedTeleportation then d.teleportFlow * (1.0 - d.teleportWeight) else 0.0)
            && d.enterFlow == InTo(net.edges, index, m)
                 + (if model.recordedTeleportation then (total - d.teleportFlow) * d.teleportWeight else 0.0)
  {
    hide TeleportInitialised, TeleportExit, TeleportEnter, Sum, OutSum, InSum, OutOf, InTo, Internal, Members;
    var n := |index|;
    var d := MemberData(net.nodes, index, m);
    var total := Sum(Values(net.nodes, Teleport));
    var outs, ins := OutSums(net.edges, n), InSums(net.edges, n);
    LinksOfModule(net.edges, index, m);
    if !model.recordedTeleportation {
      assert Values(net.nodes, Exit) == outs && Values(net.nodes, Enter) == ins;
      assert d.Get(Exit) == Members(outs, index, m) && d.Get(Enter) == Members(ins, index, m);
    } else {
      TotalTeleport(model, net.edges, net.nodes);
      TeleportMembers(model, net, index, m, total);
      var t, w := d.teleportFlow, d.teleportWeight;
      assert t * (1.0 - w) == t - t * w;
      assert (total - t) * w == total * w - t * w;
    }
  }

  /** All teleportation: a share of the unit flow, and the rest of the flow of dangling nodes. */
  lemma {:induction false} TotalTeleport(model: Model, edges: seq<Edge>, nodes: seq<FlowData>)
    requires Initialised(model, edges, nodes) && Sum(Values(nodes, Flow)) == 1.0
    ensures Sum(Values(nodes, Teleport))
         == model.teleportationProbability
            + (1.0 - model.teleportationProbability) * Sum(Values(nodes, Dangling))
  {
    hide TeleportInitialised, TeleportExit, TeleportEnter, Sum, OutSum, InSum;
    var alpha := model.teleportationProbability;
    forall a | 0 <= a < |nodes|
      ensures nodes[a].teleportFlow == alpha * nodes[a].flow + (1.0 - alpha) * nodes[a].danglingFlow
    {
      TeleportOfNode(model, edges, nodes[a], a);
    }
    SumCombination(Values(nodes, Flow), Values(nodes, Dangling), Values(nodes, Teleport), alpha, 1.0 - alpha);
  }

  lemma {:induction false} SumCombination(xs: seq<real>, ys: seq<real>, zs: seq<real>, a: real, b: real)
    requires |xs| == |ys| == |zs|
    requires forall i :: 0 <= i < |xs| ==> zs[i] == a * xs[i] + b * ys[i]
    ensures Sum(zs) == a * Sum(xs) + b * Sum(ys)
  {
    if xs != [] {
      var n := |xs| - 1;
      SumCombination(xs[..n], ys[..n], zs[..n], a, b);
      assert a * (Sum(xs[..n]) + xs[n]) == a * Sum(xs[..n]) + a * xs[n];
      assert b * (Sum(ys[..n]) + ys[n]) == b * Sum(ys[..n]) + b * ys[n];
    }
  }

  lemma {:induction false} MembersScaled(xs: seq<real>, zs: seq<real>, a: real, index: seq<nat>, m: nat)
    requires |xs| == |zs| == |index| && forall i :: 0 <= i < |xs| ==> zs[i] == Scaled(a, xs[i])
    ensures Members(zs, index, m) == Scaled(a, Members(xs, index, m))
  {
    hide Scaled;
    ScaledSum(a, 0.0, 0.0);
    if xs != [] {
      var n := |xs| - 1;
      MembersScaled(xs[..n], zs[..n], a, index[..n], m);
      ScaledSum(a, Members(xs[..n], index[..n], m), xs[n]);
    }
  }

  /** Members' teleportation, summed: what leaves and enters single nodes, less what they send to themselves. */
  lemma {:induction false} TeleportMembers(model: Model, net: Network, index: seq<nat>, m: nat, total: real)
    requires Initialised(model, net.edges, net.nodes) && |index| == |net.nodes|
    requires !model.undirected && model.recordedTeleportation
    requires total == model.teleportationProbability
                      + (1.0 - model.teleportationProbability) * Sum(Values(net.nodes, Dangling))
    ensures var d := MemberData(net.nodes, index, m);
            var own := Members(SelfTeleports(net.nodes), index, m);
            && d.exitFlow == Members(OutSums(net.edges, |index|), index, m) + d.teleportFlow - own
            && d.enterFlow == Members(InSums(net.edges, |index|), index, m) + total * d.teleportWeight - own
  {
    hide TeleportInitialised, TeleportExit, TeleportEnter, Sum, OutSum, InSum, Members, FlowData.Teleported, EdgesOk;
    var n := |index|;
    var d := MemberData(net.nodes, index, m);
    var own, weights := SelfTeleports(net.nodes), Values(net.nodes, Weight);
    var outs, ins := OutSums(net.edges, n), InSums(net.edges, n);
    var exits := seq(n, i requires 0 <= i < n => net.nodes[i].exitFlow + own[i]);
    var enters := seq(n, i requires 0 <= i < n => net.nodes[i].enterFlow + own[i]);
    var scaled := seq(n, i requires 0 <= i < n => Scaled(total, weights[i]));
    forall i | 0 <= i < n
      ensures exits[i] == outs[i] + net.nodes[i].teleportFlow
      ensures enters[i] == ins[i] + scaled[i]
    {
      TeleportOfNode(model, net.edges, net.nodes[i], i);
      EnterOfNode(model, Sum(Values(net.nodes, Dangling)), total, net.nodes[i]);
    }
    MembersPlus(Values(net.nodes, Exit), own, exits, index, m);
    MembersPlus(outs, Values(net.nodes, Teleport), exits, index, m);
    MembersPlus(Values(net.nodes, Enter), own, enters, index, m);
    MembersPlus(ins, scaled, enters, index, m);
    MembersScaled(weights, scaled, total, index, m);
    assert d.Get(Exit) == Members(Values(net.nodes, Exit), index, m);
    assert d.Get(Enter) == Members(Values(net.nodes, Enter), index, m);
    assert d.Get(Teleport) == Members(Values(net.nodes, Teleport), index, m);
    assert d.Get(Weight) == Members(weights, index, m);
  }

  lemma {:induction false} EnterOfNode(model: Model, sumDangling: real, total: real, d: FlowData)
    requires d.teleportFlow == model.teleportationProbability * d.flow
              + (1.0 - model.teleportationProbability) * d.danglingFlow
    requires total == model.teleportationProbability + (1.0 - model.teleportationProbability) * sumDangling
    ensures TeleportEnter(model, sumDangling, d) == total * d.teleportWeight - d.Teleported()
  {
    var alpha, beta, w := model.teleportationProbability, 1.0 - model.teleportationProbability, d.teleportWeight;
    assert alpha * (1.0 - d.flow) == alpha - alpha * d.flow;
    assert beta * (sumDangling - d.danglingFlow) == beta * sumDangling - beta * d.danglingFlow;
    assert (total - d.teleportFlow) * w == total * w - d.teleportFlow * w;
  }
}
