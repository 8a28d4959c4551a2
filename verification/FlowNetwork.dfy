/** The flow network that is being clustered, and what a partition of it means.

    Nodes carry flow data, edges carry link flow. A partition is an index vector: node i sits in
    module index[i]. ModuleData is the from-scratch flow data of a module; the optimizer never
    evaluates it, but everything it maintains incrementally has to equal it. */
module FlowNetwork {
  import opened Sums

  datatype FlowData = FlowData(
    flow: real,
    enterFlow: real,
    exitFlow: real,
    teleportFlow: real,
    teleportSourceFlow: real,
    teleportWeight: real,
    danglingFlow: real)
  {
    function Plus(other: FlowData): FlowData
    {
      FlowData(flow + other.flow, enterFlow + other.enterFlow, exitFlow + other.exitFlow,
               teleportFlow + other.teleportFlow, teleportSourceFlow + other.teleportSourceFlow,
               teleportWeight + other.teleportWeight, danglingFlow + other.danglingFlow)
    }

    function Minus(other: FlowData): FlowData
    {
      FlowData(flow - other.flow, enterFlow - other.enterFlow, exitFlow - other.exitFlow,
               teleportFlow - other.teleportFlow, teleportSourceFlow - other.teleportSourceFlow,
               teleportWeight - other.teleportWeight, danglingFlow - other.danglingFlow)
    }

    /** Both boundary flows raised by the same amount. */
    function Shift(amount: real): FlowData
    {
      this.(enterFlow := enterFlow + amount, exitFlow := exitFlow + amount)
    }

    /** Teleportation from the nodes summed here to themselves. */
    function Teleported(): real { teleportFlow * teleportWeight }

    /** Teleportation between a member and the rest of this sum. */
    function TeleportLeaving(n: FlowData): real
    {
      (teleportFlow - n.teleportFlow) * n.teleportWeight + n.teleportFlow * (teleportWeight - n.teleportWeight)
    }

    /** Teleportation between this sum and a node outside it. */
    function TeleportJoining(n: FlowData): real
    {
      teleportFlow * n.teleportWeight + n.teleportFlow * teleportWeight
    }

    function Get(column: Column): real
    {
      match column
      case Flow => flow
      case Enter => enterFlow
      case Exit => exitFlow
      case Teleport => teleportFlow
      case Source => teleportSourceFlow
      case Weight => teleportWeight
      case Dangling => danglingFlow
    }
  }

  const ZERO_FLOW := FlowData(0.0, 0.0, 0.0, 0.0, 0.0, 0.0, 0.0)

  datatype Column = Flow | Enter | Exit | Teleport | Source | Weight | Dangling

  datatype DeltaFlow = DeltaFlow(moduleId: nat, deltaExit: real, deltaEnter: real)
  {
    function Plus(other: DeltaFlow): DeltaFlow
    {
      DeltaFlow(other.moduleId, deltaExit + other.deltaExit, deltaEnter + other.deltaEnter)
    }

    /** Only the sum of the two parts ever reaches the module data. */
    function Total(): real { deltaEnter + deltaExit }
  }

  datatype Edge = Edge(source: nat, target: nat, flow: real)

  datatype Network = Network(nodes: seq<FlowData>, edges: seq<Edge>, recordedTeleportation: bool)
  {
    ghost predicate Valid()
    {
      EdgesOk(edges, |nodes|)
    }

    /** A partition of this network into at most one module per node. */
    ghost predicate Partition(index: seq<nat>)
    {
      |index| == |nodes| && forall i :: 0 <= i < |index| ==> index[i] < |nodes|
    }
  }

  ghost predicate EdgesOk(edges: seq<Edge>, numNodes: nat)
  {
    forall k :: 0 <= k < |edges| ==>
      edges[k].source < numNodes && edges[k].target < numNodes && edges[k].source != edges[k].target
  }

  // ----- From-scratch module data -----

  function Values(nodes: seq<FlowData>, column: Column): (r: seq<real>)
    ensures |r| == |nodes|
    ensures forall i :: 0 <= i < |r| ==> r[i] == nodes[i].Get(column)
  {
    seq(|nodes|, i requires 0 <= i < |nodes| => nodes[i].Get(column))
  }

  /** Teleportation a node sends to itself. */
  function SelfTeleports(nodes: seq<FlowData>): (r: seq<real>)
    ensures |r| == |nodes|
    ensures forall i :: 0 <= i < |r| ==> r[i] == nodes[i].Teleported()
  {
    seq(|nodes|, i requires 0 <= i < |nodes| => nodes[i].Teleported())
  }

  function MemberData(nodes: seq<FlowData>, index: seq<nat>, m: nat): (d: FlowData)
    requires |nodes| == |index|
    ensures forall c: Column :: d.Get(c) == Members(Values(nodes, c), index, m)
  {
    FlowData(Members(Values(nodes, Flow), index, m),
             Members(Values(nodes, Enter), index, m),
             Members(Values(nodes, Exit), index, m),
             Members(Values(nodes, Teleport), index, m),
             Members(Values(nodes, Source), index, m),
             Members(Values(nodes, Weight), index, m),
             Members(Values(nodes, Dangling), index, m))
  }

  /** Flow of the edges with both ends in module m. */
  function Internal(edges: seq<Edge>, index: seq<nat>, m: nat): real
    requires EdgesOk(edges, |index|)
  {
    if edges == [] then 0.0
    else
      var e := edges[|edges| - 1];
      Internal(edges[..|edges| - 1], index, m)
      + (if index[e.source] == m && index[e.target] == m then e.flow else 0.0)
  }

  /** Recorded teleportation that stays inside module m, not counting nodes teleporting to themselves. */
  function InternalTeleport(net: Network, index: seq<nat>, m: nat): real
    requires |net.nodes| == |index|
  {
    if net.recordedTeleportation then
      MemberData(net.nodes, index, m).Teleported() - Members(SelfTeleports(net.nodes), index, m)
    else 0.0
  }

  /** Members' sums, with the flow that does not cross the module's border taken off enter and exit. */
  function ModuleData(net: Network, index: seq<nat>, m: nat): FlowData
    requires net.Valid() && |net.nodes| == |index|
  {
    MemberData(net.nodes, index, m).Shift(-(Internal(net.edges, index, m) + InternalTeleport(net, index, m)))
  }

  function AllModuleData(net: Network, index: seq<nat>): (r: seq<FlowData>)
    requires net.Valid() && |net.nodes| == |index|
    ensures |r| == |net.nodes|
    ensures forall m :: 0 <= m < |r| ==> r[m] == ModuleData(net, index, m)
  {
    seq(|net.nodes|, (m: nat) => ModuleData(net, index, m))
  }

  // ----- Links between one node and one module -----

  /** Flow from node a to module m. */
  function OutFlow(edges: seq<Edge>, index: seq<nat>, a: nat, m: nat): real
    requires EdgesOk(edges, |index|)
  {
    if edges == [] then 0.0
    else
      var e := edges[|edges| - 1];
      OutFlow(edges[..|edges| - 1], index, a, m)
      + (if e.source == a && index[e.target] == m then e.flow else 0.0)
  }

  /** Flow from module m to node a. */
  function InFlow(edges: seq<Edge>, index: seq<nat>, a: nat, m: nat): real
    requires EdgesOk(edges, |index|)
  {
    if edges == [] then 0.0
    else
      var e := edges[|edges| - 1];
      InFlow(edges[..|edges| - 1], index, a, m)
      + (if e.target == a && index[e.source] == m then e.flow else 0.0)
  }

  /** Recorded teleportation between node a and the other members of module m, both directions. */
  function TeleportBetween(net: Network, index: seq<nat>, a: nat, m: nat): real
    requires |net.nodes| == |index| && a < |index|
  {
    if net.recordedTeleportation then
      var d := MemberData(net.nodes, index, m);
      if index[a] == m then d.TeleportLeaving(net.nodes[a]) else d.TeleportJoining(net.nodes[a])
    else 0.0
  }

  /** All flow between node a and the other members of module m. */
  function FlowBetween(net: Network, index: seq<nat>, a: nat, m: nat): real
    requires net.Valid() && |net.nodes| == |index| && a < |index|
  {
    OutFlow(net.edges, index, a, m) + InFlow(net.edges, index, a, m) + TeleportBetween(net, index, a, m)
  }

  // ----- The effect of one move -----

  lemma {:induction false} InternalMove(edges: seq<Edge>, index: seq<nat>, a: nat, to: nat, m: nat)
    requires EdgesOk(edges, |index|) && a < |index| && index[a] != to
    ensures EdgesOk(edges, |index[a := to]|)
    ensures Internal(edges, index[a := to], m)
         == Internal(edges, index, m)
            - (if m == index[a] then OutFlow(edges, index, a, m) + InFlow(edges, index, a, m) else 0.0)
            + (if m == to then OutFlow(edges, index, a, m) + InFlow(edges, index, a, m) else 0.0)
  {
    if edges != [] { InternalMove(edges[..|edges| - 1], index, a, to, m); }
  }

  lemma {:induction false} MemberDataMove(nodes: seq<FlowData>, index: seq<nat>, a: nat, to: nat, m: nat)
    requires |nodes| == |index| && a < |index| && index[a] != to
    ensures MemberData(nodes, index[a := to], m)
         == if m == index[a] then MemberData(nodes, index, m).Minus(nodes[a])
            else if m == to then MemberData(nodes, index, m).Plus(nodes[a])
            else MemberData(nodes, index, m)
  {
    forall c: Column
      ensures Members(Values(nodes, c), index[a := to], m)
           == Members(Values(nodes, c), index, m)
              - (if index[a] == m then nodes[a].Get(c) else 0.0) + (if to == m then nodes[a].Get(c) else 0.0)
    {
      MembersMove(Values(nodes, c), index, a, to, m);
    }
  }

  lemma {:induction false} TeleportedMinus(d: FlowData, n: FlowData)
    ensures d.Minus(n).Teleported() == d.Teleported() - d.TeleportLeaving(n) - n.Teleported()
  {
    var x, y, t, w := d.teleportFlow, d.teleportWeight, n.teleportFlow, n.teleportWeight;
    assert (x - t) * (y - w) == (x - t) * y - (x - t) * w;
    assert t * (y - w) == t * y - t * w;
  }

  lemma {:induction false} TeleportedPlus(d: FlowData, n: FlowData)
    ensures d.Plus(n).Teleported() == d.Teleported() + d.TeleportJoining(n) + n.Teleported()
  {
    var x, y, t, w := d.teleportFlow, d.teleportWeight, n.teleportFlow, n.teleportWeight;
    assert (x + t) * (y + w) == (x + t) * y + (x + t) * w;
  }

  lemma {:induction false} InternalTeleportMove(net: Network, index: seq<nat>, a: nat, to: nat, m: nat)
    requires |net.nodes| == |index| && a < |index| && index[a] != to
    ensures InternalTeleport(net, index[a := to], m)
         == InternalTeleport(net, index, m)
            - (if m == index[a] then TeleportBetween(net, index, a, m) else 0.0)
            + (if m == to then TeleportBetween(net, index, a, m) else 0.0)
  {
    MemberDataMove(net.nodes, index, a, to, m);
    MembersMove(SelfTeleports(net.nodes), index, a, to, m);
    TeleportedMinus(MemberData(net.nodes, index, m), net.nodes[a]);
    TeleportedPlus(MemberData(net.nodes, index, m), net.nodes[a]);
  }

  /** What a move does to the from-scratch data of every module. */
  lemma {:induction false} ModuleDataMove(net: Network, index: seq<nat>, a: nat, to: nat, m: nat)
    requires net.Valid() && |net.nodes| == |index| && a < |index| && index[a] != to
    ensures ModuleData(net, index[a := to], m)
         == if m == index[a] then
              ModuleData(net, index, m).Minus(net.nodes[a]).Shift(FlowBetween(net, index, a, m))
            else if m == to then
              ModuleData(net, index, m).Plus(net.nodes[a]).Shift(-FlowBetween(net, index, a, m))
            else ModuleData(net, index, m)
  {
    InternalMove(net.edges, index, a, to, m);
    MemberDataMove(net.nodes, index, a, to, m);
    InternalTeleportMove(net, index, a, to, m);
  }

  // ----- Modules that have the same members -----

  lemma {:induction false} LinksSame(edges: seq<Edge>, index: seq<nat>, other: seq<nat>, a: nat, m: nat)
    requires |index| == |other| && EdgesOk(edges, |index|)
    requires forall i :: 0 <= i < |index| ==> (index[i] == m <==> other[i] == m)
    ensures OutFlow(edges, index, a, m) == OutFlow(edges, other, a, m)
    ensures InFlow(edges, index, a, m) == InFlow(edges, other, a, m)
    ensures Internal(edges, index, m) == Internal(edges, other, m)
  {
    if edges != [] { LinksSame(edges[..|edges| - 1], index, other, a, m); }
  }

  lemma {:induction false} MemberDataSame(nodes: seq<FlowData>, index: seq<nat>, other: seq<nat>, m: nat)
    requires |nodes| == |index| == |other|
    requires forall i :: 0 <= i < |index| ==> (index[i] == m <==> other[i] == m)
    ensures MemberData(nodes, index, m) == MemberData(nodes, other, m)
  {
    forall c: Column ensures Members(Values(nodes, c), index, m) == Members(Values(nodes, c), other, m) {
      MembersRelabel(Values(nodes, c), index, m, other, m);
    }
  }

  /** Flow between a node and a module depends only on who the members of that module are. */
  lemma {:induction false} FlowBetweenSame(net: Network, index: seq<nat>, other: seq<nat>, a: nat, m: nat)
    requires net.Valid() && |net.nodes| == |index| == |other| && a < |index|
    requires forall i :: 0 <= i < |index| ==> (index[i] == m <==> other[i] == m)
    ensures FlowBetween(net, index, a, m) == FlowBetween(net, other, a, m)
    ensures ModuleData(net, index, m) == ModuleData(net, other, m)
  {
    LinksSame(net.edges, index, other, a, m);
    MemberDataSame(net.nodes, index, other, m);
    MembersRelabel(SelfTeleports(net.nodes), index, m, other, m);
  }

  // ----- Small modules -----

  lemma {:induction false} InternalAlone(edges: seq<Edge>, index: seq<nat>, m: nat)
    requires EdgesOk(edges, |index|)
    requires forall i, j :: 0 <= i < j < |index| ==> index[i] != m || index[j] != m
    ensures Internal(edges, index, m) == 0.0
  {
    if edges != [] { InternalAlone(edges[..|edges| - 1], index, m); }
  }

  /** A module with a single member has that member's data: nothing of it is internal. */
  lemma {:induction false} ModuleDataSingle(net: Network, index: seq<nat>, a: nat)
    requires net.Valid() && |net.nodes| == |index| && a < |index|
    requires forall i :: 0 <= i < |index| && i != a ==> index[i] != index[a]
    ensures ModuleData(net, index, index[a]) == net.nodes[a]
  {
    forall c: Column ensures Members(Values(net.nodes, c), index, index[a]) == net.nodes[a].Get(c) {
      MembersSingle(Values(net.nodes, c), index, a);
    }
    var d := MemberData(net.nodes, index, index[a]);
    assert d.Get(Flow) == net.nodes[a].Get(Flow) && d.Get(Enter) == net.nodes[a].Get(Enter)
        && d.Get(Exit) == net.nodes[a].Get(Exit) && d.Get(Teleport) == net.nodes[a].Get(Teleport)
        && d.Get(Source) == net.nodes[a].Get(Source) && d.Get(Weight) == net.nodes[a].Get(Weight)
        && d.Get(Dangling) == net.nodes[a].Get(Dangling);
    MembersSingle(SelfTeleports(net.nodes), index, a);
    InternalAlone(net.edges, index, index[a]);
  }

  /** An empty module has no flow at all. */
  lemma {:induction false} ModuleDataEmpty(net: Network, index: seq<nat>, m: nat)
    requires net.Valid() && |net.nodes| == |index| && m !in index
    ensures ModuleData(net, index, m) == ZERO_FLOW
  {
    forall c: Column ensures Members(Values(net.nodes, c), index, m) == 0.0 {
      MembersZero(Values(net.nodes, c), index, m);
    }
    MembersZero(SelfTeleports(net.nodes), index, m);
    InternalAlone(net.edges, index, m);
  }
}
