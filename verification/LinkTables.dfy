/** Link flows between one node and the modules around it, as every objective needs them for a
    move: for one given pair of modules, or for all candidate modules of the node at once. */
module LinkTables {
  import opened Sums
  import opened FlowNetwork
  import opened BiasedMapEquations
  import opened Partitions

  /** Entry of a module in the table of link flows, zero if it has none. */
  function DeltaAt(deltaFlow: map<nat, DeltaFlow>, m: nat): DeltaFlow
  {
    if m in deltaFlow then deltaFlow[m] else DeltaFlow(m, 0.0, 0.0)
  }

  /** Adding to the table accumulates. */
  function AddDelta(deltaFlow: map<nat, DeltaFlow>, m: nat, delta: DeltaFlow): map<nat, DeltaFlow>
  {
    if m in deltaFlow then deltaFlow[m := deltaFlow[m].Plus(delta)] else deltaFlow[m := delta]
  }

  // ----- Links around a node -----

  /** The other ends of the links of a node, outlinks first. */
  function Neighbours(edges: seq<Edge>, a: nat): seq<nat>
  {
    Targets(edges, a) + Sources(edges, a)
  }

  function Targets(edges: seq<Edge>, a: nat): seq<nat>
  {
    if edges == [] then []
    else Targets(edges[..|edges| - 1], a)
         + (if edges[|edges| - 1].source == a then [edges[|edges| - 1].target] else [])
  }

  function Sources(edges: seq<Edge>, a: nat): seq<nat>
  {
    if edges == [] then []
    else Sources(edges[..|edges| - 1], a)
         + (if edges[|edges| - 1].target == a then [edges[|edges| - 1].source] else [])
  }

  /** Those of the nodes that are in module m. */
  function InModule(nodes: seq<nat>, index: seq<nat>, m: nat): (r: seq<nat>)
    ensures |r| <= |nodes| && forall k :: 0 <= k < |r| ==> r[k] < |index| && index[r[k]] == m
  {
    if nodes == [] then []
    else
      var last := nodes[|nodes| - 1];
      InModule(nodes[..|nodes| - 1], index, m) + (if last < |index| && index[last] == m then [last] else [])
  }

  // ----- The table of link flows between one node and the modules around it -----

  /** The table holds, for every module, the flow along the given out- and inlinks. Its entries
      are modules that have members. */
  ghost predicate TableFor(deltaFlow: map<nat, DeltaFlow>, index: seq<nat>, a: nat, outlinks: seq<Edge>,
                           inlinks: seq<Edge>)
    requires EdgesOk(outlinks, |index|) && EdgesOk(inlinks, |index|)
  {
    && (forall m: nat :: DeltaAt(deltaFlow, m)
                      == DeltaFlow(m, OutFlow(outlinks, index, a, m), InFlow(inlinks, index, a, m)))
    && (forall m :: m in deltaFlow ==> m in index)
  }

  lemma {:induction false} TableEmpty(index: seq<nat>, a: nat)
    ensures TableFor(map[], index, a, [], [])
  {
  }

  lemma {:induction false} TableOut(deltaFlow: map<nat, DeltaFlow>, index: seq<nat>, a: nat, edges: seq<Edge>, k: nat)
    requires EdgesOk(edges, |index|) && k < |edges| && TableFor(deltaFlow, index, a, edges[..k], [])
    ensures edges[k].source != a ==> TableFor(deltaFlow, index, a, edges[..k + 1], [])
    ensures edges[k].source == a ==>
              var m := index[edges[k].target];
              TableFor(AddDelta(deltaFlow, m, DeltaFlow(m, edges[k].flow, 0.0)), index, a, edges[..k + 1], [])
  {
    assert edges[..k + 1][..k] == edges[..k];
  }

  lemma {:induction false} TableIn(deltaFlow: map<nat, DeltaFlow>, index: seq<nat>, a: nat, edges: seq<Edge>, k: nat)
    requires EdgesOk(edges, |index|) && k < |edges| && TableFor(deltaFlow, index, a, edges, edges[..k])
    ensures edges[k].target != a ==> TableFor(deltaFlow, index, a, edges, edges[..k + 1])
    ensures edges[k].target == a ==>
              var m := index[edges[k].source];
              TableFor(AddDelta(deltaFlow, m, DeltaFlow(m, 0.0, edges[k].flow)), index, a, edges, edges[..k + 1])
  {
    assert edges[..k + 1][..k] == edges[..k];
  }

  /** A candidate without links is added with zero flow. */
  lemma {:induction false} TableCandidate(deltaFlow: map<nat, DeltaFlow>, index: seq<nat>, a: nat, edges: seq<Edge>,
                                          m: nat)
    requires EdgesOk(edges, |index|) && TableFor(deltaFlow, index, a, edges, edges) && m in index
    ensures TableFor(AddDelta(deltaFlow, m, DeltaFlow(m, 0.0, 0.0)), index, a, edges, edges)
  {
  }

  /** Recorded teleportation between a node and its own or another module. */
  function TeleportDelta(current: FlowData, moduleData: FlowData, m: nat, own: bool): DeltaFlow
  {
    if own then
      DeltaFlow(m, current.teleportFlow * (moduleData.teleportWeight - current.teleportWeight),
                (moduleData.teleportFlow - current.teleportFlow) * current.teleportWeight)
    else
      DeltaFlow(m, current.teleportFlow * moduleData.teleportWeight, moduleData.teleportFlow * current.teleportWeight)
  }

  /** The teleportation data of the modules is that of their members. Enter and exit flow of the modules
      may hold more than this network says. */
  ghost predicate Carried(net: Network, index: seq<nat>, modules: seq<FlowData>)
  {
    && net.Valid() && net.Partition(index) && |modules| == |index|
    && forall m :: 0 <= m < |modules| ==>
         var d := MemberData(net.nodes, index, m);
         modules[m].teleportFlow == d.teleportFlow && modules[m].teleportWeight == d.teleportWeight
  }

  lemma {:induction false} CarriedByKept(net: Network, index: seq<nat>, modules: seq<FlowData>, members: seq<nat>)
    requires Kept(net, index, modules, members)
    ensures Carried(net, index, modules)
  {
  }

  lemma {:induction false} CarriedValid(net: Network, index: seq<nat>, modules: seq<FlowData>)
    requires Carried(net, index, modules)
    ensures net.Valid() && net.Partition(index) && |modules| == |index| == |net.nodes|
  {
  }

  /** Links plus teleportation are all the flow between the node and the module. */
  lemma {:induction false} TeleportEntry(net: Network, index: seq<nat>, modules: seq<FlowData>, a: nat, m: nat)
    requires Carried(net, index, modules) && a < |index| && m < |index|
    requires |index| == |net.nodes| == |modules|
    ensures EdgesOk(net.edges, |index|)
    ensures var entry := DeltaFlow(m, OutFlow(net.edges, index, a, m), InFlow(net.edges, index, a, m));
            if net.recordedTeleportation then
              ExactDelta(net, index, a, entry.Plus(TeleportDelta(net.nodes[a], modules[m], m, m == index[a])))
            else ExactDelta(net, index, a, entry)
  {
  }

  /** How strongly a node is connected to a module: the flow out along links, and what the node teleports to the
      other members if that is recorded. */
  ghost function LinkExit(net: Network, index: seq<nat>, a: nat, m: nat): real
    requires net.Valid() && net.Partition(index) && a < |index|
  {
    OutFlow(net.edges, index, a, m)
    + if net.recordedTeleportation then
        var others := MemberData(net.nodes, index, m).teleportWeight
                      - if m == index[a] then net.nodes[a].teleportWeight else 0.0;
        net.nodes[a].teleportFlow * others
      else 0.0
  }

  lemma {:induction false} TeleportExitIs(net: Network, index: seq<nat>, modules: seq<FlowData>, a: nat, m: nat)
    requires Carried(net, index, modules) && a < |index| && m < |index| && net.recordedTeleportation
    ensures |index| == |net.nodes| == |modules| && net.Valid() && net.Partition(index)
    ensures LinkExit(net, index, a, m)
         == OutFlow(net.edges, index, a, m)
            + TeleportDelta(net.nodes[a], modules[m], m, m == index[a]).deltaExit
  {
  }

  lemma {:induction false} ExactDeltaBound(net: Network, index: seq<nat>, a: nat, delta: DeltaFlow)
    requires ExactDelta(net, index, a, delta)
    ensures delta.moduleId < |index|
  {
  }

  // ----- The list of empty modules -----

  /** The list of empty modules has the right length and names modules; it need not name the
      empty ones. */
  ghost predicate EmptyListOk(emptyModules: seq<nat>, members: seq<nat>)
  {
    |emptyModules| == NumZeros(members) && forall k :: 0 <= k < |emptyModules| ==> emptyModules[k] < |members|
  }

  /** The list after a move: pop for a filled module, whichever module is on top, and push for an emptied one. */
  function EmptyListMoved(emptyModules: seq<nat>, members: seq<nat>, oldM: nat, newM: nat): seq<nat>
    requires oldM < |members| && newM < |members| && (members[newM] == 0 ==> emptyModules != [])
  {
    (if members[newM] == 0 then emptyModules[..|emptyModules| - 1] else emptyModules)
    + (if members[oldM] == 1 then [oldM] else [])
  }

  /** The length of the list follows every move. */
  lemma {:induction false} EmptyListCounts(emptyModules: seq<nat>, members: seq<nat>, oldM: nat, newM: nat)
    requires oldM < |members| && newM < |members| && oldM != newM && members[oldM] > 0
    requires EmptyListOk(emptyModules, members)
    ensures members[newM] == 0 ==> emptyModules != []
    ensures EmptyListOk(EmptyListMoved(emptyModules, members, oldM, newM), MembersMoved(members, oldM, newM))
  {
    NumZerosBound(members, newM);
    NumActiveMoved(members, oldM, newM);
  }

  /** The list names exactly the empty modules. */
  ghost predicate EmptyListNames(emptyModules: seq<nat>, members: seq<nat>)
  {
    && (forall i, j :: 0 <= i < j < |emptyModules| ==> emptyModules[i] != emptyModules[j])
    && (forall m :: 0 <= m < |members| ==> (m in emptyModules <==> members[m] == 0))
  }

  /** The names stay right exactly when a filled module is the one on top of the list. */
  lemma {:induction false} EmptyListNamesMoved(emptyModules: seq<nat>, members: seq<nat>, oldM: nat, newM: nat)
    requires oldM < |members| && newM < |members| && oldM != newM && members[oldM] > 0
    requires EmptyListOk(emptyModules, members) && EmptyListNames(emptyModules, members)
    ensures members[newM] == 0 ==> emptyModules != []
    ensures EmptyListNames(EmptyListMoved(emptyModules, members, oldM, newM), MembersMoved(members, oldM, newM))
       <==> (members[newM] == 0 ==> emptyModules[|emptyModules| - 1] == newM)
  {
    EmptyListCounts(emptyModules, members, oldM, newM);
    var n := |emptyModules|;
    var after, members' := EmptyListMoved(emptyModules, members, oldM, newM), MembersMoved(members, oldM, newM);
    if members[newM] == 0 {
      assert emptyModules == emptyModules[..n - 1] + [emptyModules[n - 1]];
      if emptyModules[n - 1] != newM {
        assert newM in emptyModules[..n - 1];
        assert newM in after && members'[newM] == 1;
      } else {
        assert newM !in emptyModules[..n - 1];
      }
    }
  }

  /** The list, members and assignment while the nodes before node k are moved to predefined modules. */
  datatype ListState = ListState(index: seq<nat>, members: seq<nat>, emptyModules: seq<nat>)
  {
    ghost predicate Ok()
    {
      && |members| == |index| && members == AllMembers(index, |index|) && EmptyListOk(emptyModules, members)
      && forall i :: 0 <= i < |index| ==> index[i] < |index|
    }
  }

  ghost function ListMoved(state: ListState, a: nat, to: nat): (r: ListState)
    requires state.Ok() && a < |state.index| && to < |state.index|
    ensures r.Ok() && r.index == state.index[a := to]
  {
    if state.index[a] == to then state
    else
      AllMembersMove(state.index, a, to, |state.index|);
      EmptyListCounts(state.emptyModules, state.members, state.index[a], to);
      ListState(state.index[a := to], MembersMoved(state.members, state.index[a], to),
                EmptyListMoved(state.emptyModules, state.members, state.index[a], to))
  }

  ghost function ListAfter(state: ListState, modules: seq<nat>, k: nat): (r: ListState)
    requires state.Ok() && |modules| == |state.index| && k <= |modules|
    requires forall i :: 0 <= i < |modules| ==> modules[i] < |modules|
    ensures r.Ok() && |r.index| == |state.index|
  {
    if k == 0 then state else ListMoved(ListAfter(state, modules, k - 1), k - 1, modules[k - 1])
  }

  lemma {:induction false} ListAfterNone(state: ListState, modules: seq<nat>)
    requires state.Ok() && |modules| == |state.index|
    requires forall i :: 0 <= i < |modules| ==> modules[i] < |modules|
    ensures ListAfter(state, modules, 0) == state
  {
    hide ListMoved, ListState.Ok;
  }

  lemma {:induction false} ListAfterNext(state: ListState, modules: seq<nat>, k: nat)
    requires state.Ok() && |modules| == |state.index| && k < |modules|
    requires forall i :: 0 <= i < |modules| ==> modules[i] < |modules|
    ensures ListAfter(state, modules, k).Ok() && |ListAfter(state, modules, k).index| == |state.index|
    ensures ListAfter(state, modules, k + 1) == ListMoved(ListAfter(state, modules, k), k, modules[k])
  {
    hide ListMoved, ListState.Ok;
  }

  lemma {:induction false} SinglesCounted()
    ensures AllMembers([0, 1, 2], 3) == [1, 1, 1]
  {
    hide Count;
    var index := [0, 1, 2];
    forall m: nat | m < 3 ensures AllMembers(index, 3)[m] == 1 {
      assert index[m] == m;
      CountDistinct(index, m);
    }
  }

  /** Three nodes, each in a module of its own. */
  ghost function ThreeSingletons(): (r: ListState)
    ensures r.Ok()
  {
    SinglesCounted();
    assert NumZeros([1, 1, 1]) == 0 by {
      NoZeros([1, 1, 1]);
    }
    ListState([0, 1, 2], [1, 1, 1], [])
  }

  /** They can therefore drift: when three single nodes are moved to the predefined modules 2, 2 and 0,
      module 0 is filled while module 1 is on top, and the list ends up naming the filled module 0 and
      not the empty module 1. */
  lemma {:induction false} EmptyListDrifts()
    ensures EmptyListNames(ThreeSingletons().emptyModules, ThreeSingletons().members)
    ensures ListAfter(ThreeSingletons(), [2, 2, 0], 3) == ListState([2, 2, 0], [1, 0, 2], [0])
    ensures !EmptyListNames([0], [1, 0, 2])
  {
    var start, modules := ThreeSingletons(), [2, 2, 0];
    assert ListAfter(start, modules, 1) == ListState([2, 1, 2], [0, 1, 2], [0]);
    assert ListAfter(start, modules, 2) == ListState([2, 2, 2], [0, 0, 3], [0, 1]);
    assert [0, 1][..1] == [0];
  }

  // ----- Deltas for a given pair of modules -----

  method LinkDeltas(net: Network, index: seq<nat>, modules: seq<FlowData>, a: nat, oldM: nat, newM: nat)
    returns (oldDelta: DeltaFlow, newDelta: DeltaFlow)
    requires Carried(net, index, modules)
    requires a < |index| && oldM == index[a] && newM < |index| && newM != oldM
    ensures ExactDelta(net, index, a, oldDelta) && oldDelta.moduleId == oldM
    ensures ExactDelta(net, index, a, newDelta) && newDelta.moduleId == newM
  {
    hide OutFlow, InFlow, Carried, TeleportBetween;
    CarriedValid(net, index, modules);
    NoFlow(net.edges, index, a, oldM);
    NoFlow(net.edges, index, a, newM);
    oldDelta, newDelta := DeltaFlow(oldM, 0.0, 0.0), DeltaFlow(newM, 0.0, 0.0);
    // For all outlinks
    for k := 0 to |net.edges|
      invariant oldDelta == DeltaFlow(oldM, OutFlow(net.edges[..k], index, a, oldM), 0.0)
      invariant newDelta == DeltaFlow(newM, OutFlow(net.edges[..k], index, a, newM), 0.0)
    {
      var e := net.edges[k];
      FlowNext(net.edges, k, index, a, oldM);
      FlowNext(net.edges, k, index, a, newM);
      if e.source == a {
        var otherModule := index[e.target];
        if otherModule == oldM {
          oldDelta := oldDelta.(deltaExit := oldDelta.deltaExit + e.flow);
        } else if otherModule == newM {
          newDelta := newDelta.(deltaExit := newDelta.deltaExit + e.flow);
        }
      }
    }
    assert net.edges[..|net.edges|] == net.edges;
    // For all inlinks
    for k := 0 to |net.edges|
      invariant oldDelta == DeltaFlow(oldM, OutFlow(net.edges, index, a, oldM), InFlow(net.edges[..k], index, a, oldM))
      invariant newDelta == DeltaFlow(newM, OutFlow(net.edges, index, a, newM), InFlow(net.edges[..k], index, a, newM))
    {
      var e := net.edges[k];
      FlowNext(net.edges, k, index, a, oldM);
      FlowNext(net.edges, k, index, a, newM);
      if e.target == a {
        var otherModule := index[e.source];
        if otherModule == oldM {
          oldDelta := oldDelta.(deltaEnter := oldDelta.deltaEnter + e.flow);
        } else if otherModule == newM {
          newDelta := newDelta.(deltaEnter := newDelta.deltaEnter + e.flow);
        }
      }
    }
    assert net.edges[..|net.edges|] == net.edges;
    oldDelta, newDelta := AddTeleportationFlow(net, index, modules, a, oldDelta, newDelta);
  }

  lemma {:induction false} NoFlow(edges: seq<Edge>, index: seq<nat>, a: nat, m: nat)
    requires EdgesOk(edges, |index|)
    ensures OutFlow(edges[..0], index, a, m) == 0.0 && InFlow(edges[..0], index, a, m) == 0.0
  {
    assert edges[..0] == [];
  }

  lemma {:induction false} FlowNext(edges: seq<Edge>, k: nat, index: seq<nat>, a: nat, m: nat)
    requires EdgesOk(edges, |index|) && k < |edges|
    ensures OutFlow(edges[..k + 1], index, a, m)
         == OutFlow(edges[..k], index, a, m)
            + (if edges[k].source == a && index[edges[k].target] == m then edges[k].flow else 0.0)
    ensures InFlow(edges[..k + 1], index, a, m)
         == InFlow(edges[..k], index, a, m)
            + (if edges[k].target == a && index[edges[k].source] == m then edges[k].flow else 0.0)
  {
    assert edges[..k + 1][..k] == edges[..k];
  }

  /** For recorded teleportation, the form used when both modules are given. */
  method AddTeleportationFlow(net: Network, index: seq<nat>, modules: seq<FlowData>,
                              a: nat, oldDelta: DeltaFlow, newDelta: DeltaFlow)
    returns (oldDelta': DeltaFlow, newDelta': DeltaFlow)
    requires Carried(net, index, modules) && a < |index| && oldDelta.moduleId == index[a]
    requires newDelta.moduleId < |index| && newDelta.moduleId != index[a]
    ensures oldDelta'.moduleId == oldDelta.moduleId && newDelta'.moduleId == newDelta.moduleId
    ensures oldDelta'.Total() == oldDelta.Total() + TeleportBetween(net, index, a, oldDelta.moduleId)
    ensures newDelta'.Total() == newDelta.Total() + TeleportBetween(net, index, a, newDelta.moduleId)
  {
    hide AllMembers, EdgesOk;
    oldDelta', newDelta' := oldDelta, newDelta;
    if !net.recordedTeleportation {
      return;
    }
    var current := net.nodes[a];
    var oldModule := modules[oldDelta.moduleId];
    oldDelta' := DeltaFlow(
      oldDelta.moduleId,
      oldDelta.deltaExit + current.teleportFlow * (oldModule.teleportWeight - current.teleportWeight),
      oldDelta.deltaEnter + (oldModule.teleportFlow - current.teleportFlow) * current.teleportWeight);
    var newModule := modules[newDelta.moduleId];
    newDelta' := DeltaFlow(newDelta.moduleId,
                           newDelta.deltaExit + newModule.teleportFlow * current.teleportWeight,
                           newDelta.deltaEnter + current.teleportFlow * newModule.teleportWeight);
  }

  // ----- Deltas for all candidate modules of a node -----

  /** A link joins node a and a member of module m. */
  ghost predicate LinkedTo(edges: seq<Edge>, index: seq<nat>, a: nat, m: nat)
    requires EdgesOk(edges, |index|)
  {
    exists k :: 0 <= k < |edges| && LinkJoins(edges[k], index, a, m)
  }

  predicate LinkJoins(e: Edge, index: seq<nat>, a: nat, m: nat)
    requires e.source < |index| && e.target < |index|
  {
    (e.source == a && index[e.target] == m) || (e.target == a && index[e.source] == m)
  }

  /** A module that node a is offered for sure: its own, one it has a link with, and the last one on the
      list of empty modules unless it is alone. */
  ghost predicate Candidate(net: Network, index: seq<nat>, members: seq<nat>, emptyModules: seq<nat>, a: nat, m: nat)
    requires net.Valid() && |net.nodes| == |index| == |members| && a < |index| && index[a] < |index|
  {
    || m == index[a]
    || LinkedTo(net.edges, index, a, m)
    || (members[index[a]] > 1 && emptyModules != [] && m == emptyModules[|emptyModules| - 1])
  }

  /** Whoever is joined to node a by one of the links is in a module of the table, and the table has no others. */
  ghost predicate LinkedModules(deltaFlow: map<nat, DeltaFlow>, index: seq<nat>, a: nat, outlinks: seq<Edge>,
                                inlinks: seq<Edge>)
    requires EdgesOk(outlinks, |index|) && EdgesOk(inlinks, |index|)
  {
    forall m: nat :: m in deltaFlow <==>
      || (exists k :: 0 <= k < |outlinks| && outlinks[k].source == a && index[outlinks[k].target] == m)
      || (exists k :: 0 <= k < |inlinks| && inlinks[k].target == a && index[inlinks[k].source] == m)
  }

  lemma {:induction false} LinkedOut(deltaFlow: map<nat, DeltaFlow>, index: seq<nat>, a: nat, edges: seq<Edge>, k: nat)
    requires EdgesOk(edges, |index|) && k < |edges| && LinkedModules(deltaFlow, index, a, edges[..k], [])
    ensures edges[k].source != a ==> LinkedModules(deltaFlow, index, a, edges[..k + 1], [])
    ensures forall d: DeltaFlow :: edges[k].source == a ==>
              LinkedModules(AddDelta(deltaFlow, index[edges[k].target], d), index, a, edges[..k + 1], [])
  {
    var now, before := edges[..k + 1], edges[..k];
    assert now[k] == edges[k];
    assert forall i :: 0 <= i < k ==> now[i] == before[i];
  }

  lemma {:induction false} LinkedIn(deltaFlow: map<nat, DeltaFlow>, index: seq<nat>, a: nat, edges: seq<Edge>, k: nat)
    requires EdgesOk(edges, |index|) && k < |edges| && LinkedModules(deltaFlow, index, a, edges, edges[..k])
    ensures edges[k].target != a ==> LinkedModules(deltaFlow, index, a, edges, edges[..k + 1])
    ensures forall d: DeltaFlow :: edges[k].target == a ==>
              LinkedModules(AddDelta(deltaFlow, index[edges[k].source], d), index, a, edges, edges[..k + 1])
  {
    var now, before := edges[..k + 1], edges[..k];
    assert now[k] == edges[k];
    assert forall i :: 0 <= i < k ==> now[i] == before[i];
  }

  lemma {:induction false} LinkedAll(deltaFlow: map<nat, DeltaFlow>, index: seq<nat>, a: nat, edges: seq<Edge>)
    requires EdgesOk(edges, |index|) && LinkedModules(deltaFlow, index, a, edges, edges)
    ensures forall m: nat :: m in deltaFlow <==> LinkedTo(edges, index, a, m)
  {
    forall m: nat ensures m in deltaFlow <==> LinkedTo(edges, index, a, m) {
      if LinkedTo(edges, index, a, m) {
        var k :| 0 <= k < |edges| && LinkJoins(edges[k], index, a, m);
      } else if m in deltaFlow {
        forall k | 0 <= k < |edges| ensures !LinkJoins(edges[k], index, a, m) {
        }
      }
    }
  }

  /** The modules that a node has links with, each with the flow of the links. */
  method CollectNeighbourModules(net: Network, index: seq<nat>, a: nat) returns (deltaFlow: map<nat, DeltaFlow>)
    requires net.Valid() && net.Partition(index) && a < |index|
    ensures EdgesOk(net.edges, |index|) && TableFor(deltaFlow, index, a, net.edges, net.edges)
    ensures forall m: nat :: m in deltaFlow <==> LinkedTo(net.edges, index, a, m)
  {
    hide TableFor, LinkedTo, LinkedModules;
    TableEmpty(index, a);
    deltaFlow := map[];
    assert net.edges[..0] == [];
    NothingLinked(index, a);
    // For all outlinks
    for k := 0 to |net.edges|
      invariant TableFor(deltaFlow, index, a, net.edges[..k], [])
      invariant LinkedModules(deltaFlow, index, a, net.edges[..k], [])
    {
      TableOut(deltaFlow, index, a, net.edges, k);
      LinkedOut(deltaFlow, index, a, net.edges, k);
      var e := net.edges[k];
      if e.source == a {
        deltaFlow := AddDelta(deltaFlow, index[e.target], DeltaFlow(index[e.target], e.flow, 0.0));
      }
    }
    assert net.edges[..|net.edges|] == net.edges;
    // For all inlinks
    for k := 0 to |net.edges|
      invariant TableFor(deltaFlow, index, a, net.edges, net.edges[..k])
      invariant LinkedModules(deltaFlow, index, a, net.edges, net.edges[..k])
    {
      TableIn(deltaFlow, index, a, net.edges, k);
      LinkedIn(deltaFlow, index, a, net.edges, k);
      var e := net.edges[k];
      if e.target == a {
        deltaFlow := AddDelta(deltaFlow, index[e.source], DeltaFlow(index[e.source], 0.0, e.flow));
      }
    }
    LinkedAll(deltaFlow, index, a, net.edges);
  }

  lemma {:induction false} NothingLinked(index: seq<nat>, a: nat)
    ensures LinkedModules(map[], index, a, [], [])
  {
  }

  /** All modules a node has links with, some random ones, and its own, each with the flow of the links. */
  method CollectLinks(net: Network, index: seq<nat>, a: nat, numRandomMoves: nat)
    returns (deltaFlow: map<nat, DeltaFlow>, ghost picked: seq<nat>)
    requires net.Valid() && net.Partition(index) && a < |index|
    ensures index[a] in deltaFlow
    ensures EdgesOk(net.edges, |index|) && TableFor(deltaFlow, index, a, net.edges, net.edges)
    ensures forall m :: LinkedTo(net.edges, index, a, m) ==> m in deltaFlow
    ensures forall m :: m in deltaFlow ==>
              m == index[a] || LinkedTo(net.edges, index, a, m) || (numRandomMoves > 0 && m in index)
    ensures |picked| == numRandomMoves
    ensures forall k :: 0 <= k < |picked| ==> picked[k] < |index| && index[picked[k]] in deltaFlow
  {
    hide TableFor, LinkedTo;
    deltaFlow := CollectNeighbourModules(net, index, a);
    picked := [];
    // For random moves
    for k := 0 to numRandomMoves
      invariant TableFor(deltaFlow, index, a, net.edges, net.edges)
      invariant forall m :: LinkedTo(net.edges, index, a, m) ==> m in deltaFlow
      invariant forall m :: m in deltaFlow ==> LinkedTo(net.edges, index, a, m) || (numRandomMoves > 0 && m in index)
      invariant |picked| == k && forall i :: 0 <= i < k ==> picked[i] < |index| && index[picked[i]] in deltaFlow
    {
      var neighbour :| 0 <= neighbour < |index|;
      picked := picked + [neighbour];
      TableCandidate(deltaFlow, index, a, net.edges, index[neighbour]);
      deltaFlow := AddDelta(deltaFlow, index[neighbour], DeltaFlow(index[neighbour], 0.0, 0.0));
    }
    // For not moving
    TableCandidate(deltaFlow, index, a, net.edges, index[a]);
    deltaFlow := AddDelta(deltaFlow, index[a], DeltaFlow(index[a], 0.0, 0.0));
  }

  /** The option to move to an empty module, if the node is not already alone. */
  method OfferEmptyModule(net: Network, index: seq<nat>, members: seq<nat>, emptyModules: seq<nat>,
                          a: nat, deltaFlow: map<nat, DeltaFlow>)
    returns (offered: map<nat, DeltaFlow>)
    requires net.Valid() && net.Partition(index) && members == AllMembers(index, |index|)
              && EmptyListOk(emptyModules, members)
    requires a < |index| && index[a] in deltaFlow
    requires EdgesOk(net.edges, |index|) && TableFor(deltaFlow, index, a, net.edges, net.edges)
    ensures index[a] in offered && |index| == |members|
    ensures offered.Keys
         == deltaFlow.Keys + (if members[index[a]] > 1 && emptyModules != [] then {emptyModules[|emptyModules| - 1]}
                              else {})
    ensures forall m: nat ::
              DeltaAt(offered, m) == DeltaFlow(m, OutFlow(net.edges, index, a, m), InFlow(net.edges, index, a, m))
    ensures forall m :: m in offered ==>
              m < |index| && offered[m] == DeltaFlow(m, OutFlow(net.edges, index, a, m), InFlow(net.edges, index, a, m))
    ensures forall m :: m in offered && Count(index, index[a]) == 1 ==> m in index
  {
    hide OutFlow, InFlow, NumZeros;
    offered := deltaFlow;
    forall m | m in deltaFlow
      ensures deltaFlow[m] == DeltaFlow(m, OutFlow(net.edges, index, a, m), InFlow(net.edges, index, a, m))
    {
      assert DeltaAt(deltaFlow, m) == deltaFlow[m];
    }
    if members[index[a]] > 1 && emptyModules != [] {
      var m := emptyModules[|emptyModules| - 1];
      assert DeltaAt(deltaFlow, m) == DeltaFlow(m, OutFlow(net.edges, index, a, m), InFlow(net.edges, index, a, m));
      offered := AddDelta(deltaFlow, m, DeltaFlow(m, 0.0, 0.0));
    }
  }

  /** For recorded teleportation, the form used on the whole table. It exchanges the enter and
      exit parts of a new module compared to AddTeleportationFlow; their sum is the same. */
  method AddTeleportationFlowToAll(net: Network, index: seq<nat>, modules: seq<FlowData>,
                                   a: nat, table: map<nat, DeltaFlow>)
    returns (deltaFlow: map<nat, DeltaFlow>)
    requires Carried(net, index, modules) && a < |index|
    requires forall m :: m in table ==>
               m < |index| && table[m] == DeltaFlow(m, OutFlow(net.edges, index, a, m), InFlow(net.edges, index, a, m))
    ensures deltaFlow.Keys == table.Keys
    ensures forall m :: m in deltaFlow ==> deltaFlow[m].moduleId == m && ExactDelta(net, index, a, deltaFlow[m])
    ensures net.Valid() && net.Partition(index)
    ensures forall m :: m in deltaFlow ==> m < |index| && deltaFlow[m].deltaExit == LinkExit(net, index, a, m)
  {
    hide OutFlow, InFlow, Carried, ExactDelta;
    CarriedValid(net, index, modules);
    deltaFlow := table;
    if !net.recordedTeleportation {
      forall m | m in table ensures ExactDelta(net, index, a, table[m]) {
        TeleportEntry(net, index, modules, a, m);
      }
      return;
    }
    var todo := table.Keys;
    while todo != {}
      invariant todo <= table.Keys == deltaFlow.Keys
      invariant forall m :: m in todo ==> deltaFlow[m] == table[m]
      invariant forall m :: m in deltaFlow && m !in todo ==>
                  deltaFlow[m].moduleId == m && ExactDelta(net, index, a, deltaFlow[m])
                  && deltaFlow[m].deltaExit == LinkExit(net, index, a, m)
      decreases todo
    {
      var m :| m in todo;
      todo := todo - {m};
      TeleportEntry(net, index, modules, a, m);
      TeleportExitIs(net, index, modules, a, m);
      deltaFlow := AddDelta(deltaFlow, m, TeleportDelta(net.nodes[a], modules[m], m, m == index[a]));
    }
  }

  /** Number of links between node a and the members of one module, and the node the last of them leads to. */
  method CountLinksInto(net: Network, index: seq<nat>, a: nat, m: nat)
    returns (numLinked: nat, last: nat)
    requires net.Valid() && net.Partition(index) && a < |index|
    ensures last < |index| && numLinked == |InModule(Neighbours(net.edges, a), index, m)|
    ensures numLinked > 0 ==> last == InModule(Neighbours(net.edges, a), index, m)[numLinked - 1]
  {
    hide Targets, Sources, InModule;
    numLinked, last := 0, a;
    ghost var found: seq<nat> := [];
    NoneLinked(net.edges, index, a, m);
    for k := 0 to |net.edges|
      invariant found == InModule(Targets(net.edges[..k], a), index, m)
      invariant last < |index| && numLinked == |found| && (found != [] ==> last == found[|found| - 1])
    {
      var e := net.edges[k];
      TargetsNext(net.edges, k, index, a, m);
      if e.source == a && index[e.target] == m {
        numLinked, last := numLinked + 1, e.target;
        found := found + [e.target];
      }
    }
    assert net.edges[..|net.edges|] == net.edges;
    for k := 0 to |net.edges|
      invariant found == InModule(Targets(net.edges, a) + Sources(net.edges[..k], a), index, m)
      invariant last < |index| && numLinked == |found| && (found != [] ==> last == found[|found| - 1])
    {
      var e := net.edges[k];
      SourcesNext(net.edges, k, index, a, m);
      if e.target == a && index[e.source] == m {
        numLinked, last := numLinked + 1, e.source;
        found := found + [e.source];
      }
    }
  }

  lemma {:induction false} NoneLinked(edges: seq<Edge>, index: seq<nat>, a: nat, m: nat)
    ensures InModule(Targets(edges[..0], a), index, m) == []
    ensures Targets(edges, a) + Sources(edges[..0], a) == Targets(edges, a)
  {
    assert edges[..0] == [];
  }

  lemma {:induction false} TargetsNext(edges: seq<Edge>, k: nat, index: seq<nat>, a: nat, m: nat)
    requires EdgesOk(edges, |index|) && k < |edges|
    ensures InModule(Targets(edges[..k + 1], a), index, m)
         == InModule(Targets(edges[..k], a), index, m)
            + (if edges[k].source == a && index[edges[k].target] == m then [edges[k].target] else [])
  {
    assert edges[..k + 1][..k] == edges[..k];
    InModuleNext(Targets(edges[..k], a), edges[k].target, index, m);
    assert edges[k].source != a ==> Targets(edges[..k + 1], a) == Targets(edges[..k], a);
  }

  lemma {:induction false} SourcesNext(edges: seq<Edge>, k: nat, index: seq<nat>, a: nat, m: nat)
    requires EdgesOk(edges, |index|) && k < |edges|
    ensures InModule(Targets(edges, a) + Sources(edges[..k + 1], a), index, m)
         == InModule(Targets(edges, a) + Sources(edges[..k], a), index, m)
            + (if edges[k].target == a && index[edges[k].source] == m then [edges[k].source] else [])
  {
    hide Targets, InModule;
    assert edges[..k + 1][..k] == edges[..k];
    var before, b := Targets(edges, a) + Sources(edges[..k], a), edges[k].source;
    InModuleNext(before, b, index, m);
    assert edges[k].target == a ==> Targets(edges, a) + (Sources(edges[..k], a) + [b]) == before + [b];
    assert edges[k].target != a ==> Sources(edges[..k + 1], a) == Sources(edges[..k], a);
  }

  lemma {:induction false} InModuleNext(nodes: seq<nat>, b: nat, index: seq<nat>, m: nat)
    ensures InModule(nodes + [b], index, m)
         == InModule(nodes, index, m) + (if b < |index| && index[b] == m then [b] else [])
  {
    assert (nodes + [b])[..|nodes|] == nodes;
  }

  /** A permutation of 0..n, any one of them. */
  method RandomizedIndexVector(n: nat) returns (order: seq<nat>)
    ensures |order| == n && Distinct(order) && forall i :: 0 <= i < n ==> order[i] < n
  {
    order := Identity(n);
    var i := n;
    while i > 1
      invariant |order| == n && Distinct(order) && forall k :: 0 <= k < n ==> order[k] < n
    {
      var j :| 0 <= j < i;
      i := i - 1;
      order := order[i := order[j]][j := order[i]];
    }
  }
}
