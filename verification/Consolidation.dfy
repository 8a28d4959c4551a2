/** Consolidation: every module becomes a node of a smaller network. The small network stands
    for the large one exactly: whatever way its nodes are grouped further, every group has the
    same flow data as the group of the original nodes. */
module Consolidation {
  import opened Sums
  import opened FlowNetwork
  import opened MapEquations
  import opened BiasedMapEquations
  import opened Partitions

  // ----- The aggregated links, kept like a map sorted by (source, target) -----

  predicate KeyLess(e: Edge, source: nat, target: nat)
  {
    e.source < source || (e.source == source && e.target < target)
  }

  ghost predicate LinksSorted(links: seq<Edge>)
  {
    forall i, j :: 0 <= i < j < |links| ==> KeyLess(links[i], links[j].source, links[j].target)
  }

  /** Sorted links are in order of their sources, and of their targets within a source, with one entry per pair. */
  lemma {:induction false} SortedMeans(links: seq<Edge>, i: nat, j: nat)
    requires LinksSorted(links) && i < |links| && j < |links|
    ensures links[i].source < links[j].source ==> i < j
    ensures links[i].source == links[j].source && links[i].target < links[j].target ==> i < j
    ensures links[i].source == links[j].source && links[i].target == links[j].target ==> i == j
  {
    if j < i {
      assert KeyLess(links[j], links[i].source, links[i].target);
    }
  }

  function InsertLink(links: seq<Edge>, source: nat, target: nat, flow: real): seq<Edge>
  {
    if links == [] then [Edge(source, target, flow)]
    else
      var n := |links| - 1;
      var last := links[n];
      if KeyLess(last, source, target) then links + [Edge(source, target, flow)]
      else if last.source == source && last.target == target then links[..n] + [last.(flow := last.flow + flow)]
      else InsertLink(links[..n], source, target, flow) + [last]
  }

  lemma {:induction false} InsertEnds(links: seq<Edge>, source: nat, target: nat, flow: real)
    ensures forall e :: e in InsertLink(links, source, target, flow) ==>
              (e.source == source && e.target == target)
              || exists f :: f in links && f.source == e.source && f.target == e.target
  {
    if links != [] {
      var n := |links| - 1;
      InsertEnds(links[..n], source, target, flow);
      var r := InsertLink(links, source, target, flow);
      forall e | e in r
        ensures (e.source == source && e.target == target)
             || exists f :: f in links && f.source == e.source && f.target == e.target
      {
        if e in links {
        } else if e.source != source || e.target != target {
          assert e in InsertLink(links[..n], source, target, flow);
          var f :| f in links[..n] && f.source == e.source && f.target == e.target;
          assert f in links;
        }
      }
    }
  }

  /** Inserting keeps one entry per pair, in order. */
  lemma {:induction false} InsertLinkSorted(links: seq<Edge>, source: nat, target: nat, flow: real)
    requires LinksSorted(links)
    ensures LinksSorted(InsertLink(links, source, target, flow))
  {
    if links != [] {
      var n := |links| - 1;
      var last := links[n];
      var init := InsertLink(links[..n], source, target, flow);
      InsertLinkSorted(links[..n], source, target, flow);
      if !KeyLess(last, source, target) && (last.source != source || last.target != target) {
        InsertEnds(links[..n], source, target, flow);
        forall i | 0 <= i < |init| ensures KeyLess(init[i], last.source, last.target) {
          assert init[i] in init;
        }
        assert InsertLink(links, source, target, flow) == init + [last];
        SortedAppend(init, last);
      } else if KeyLess(last, source, target) {
        SortedAppend(links, Edge(source, target, flow));
      }
    }
  }

  lemma {:induction false} SortedAppend(links: seq<Edge>, e: Edge)
    requires LinksSorted(links)
    requires links != [] ==> KeyLess(links[|links| - 1], e.source, e.target)
    ensures LinksSorted(links + [e])
  {
  }

  lemma {:induction false} InsertLinkInternal(links: seq<Edge>, source: nat, target: nat, flow: real,
                                              outer: seq<nat>, s: nat)
    requires EdgesOk(links, |outer|) && source < |outer| && target < |outer| && source != target
    ensures EdgesOk(InsertLink(links, source, target, flow), |outer|)
    ensures Internal(InsertLink(links, source, target, flow), outer, s)
         == Internal(links, outer, s) + (if outer[source] == s && outer[target] == s then flow else 0.0)
  {
    var r := InsertLink(links, source, target, flow);
    if links != [] {
      var n := |links| - 1;
      var last := links[n];
      if KeyLess(last, source, target) {
        assert r[..|r| - 1] == links;
      } else if last.source == source && last.target == target {
        assert r[..|r| - 1] == links[..n];
      } else {
        InsertLinkInternal(links[..n], source, target, flow, outer, s);
        assert r[..|r| - 1] == InsertLink(links[..n], source, target, flow);
      }
    } else {
      assert r[..0] == [];
    }
  }

  /** One edge of the active network added to the links between modules. In undirected
      clustering the two directions share one entry. */
  function AddEdge(links: seq<Edge>, e: Edge, index: seq<nat>, undirected: bool): seq<Edge>
    requires e.source < |index| && e.target < |index|
  {
    var module1, module2 := index[e.source], index[e.target];
    if module1 == module2 then links
    else if undirected && module1 > module2 then InsertLink(links, module2, module1, e.flow)
    else InsertLink(links, module1, module2, e.flow)
  }

  function ModuleLinks(edges: seq<Edge>, index: seq<nat>, undirected: bool): seq<Edge>
    requires EdgesOk(edges, |index|)
  {
    if edges == [] then []
    else AddEdge(ModuleLinks(edges[..|edges| - 1], index, undirected), edges[|edges| - 1], index, undirected)
  }

  lemma {:induction false} ModuleLinksSorted(edges: seq<Edge>, index: seq<nat>, undirected: bool)
    requires EdgesOk(edges, |index|)
    ensures LinksSorted(ModuleLinks(edges, index, undirected))
    ensures undirected ==>
              forall k :: 0 <= k < |ModuleLinks(edges, index, undirected)| ==>
                ModuleLinks(edges, index, undirected)[k].source < ModuleLinks(edges, index, undirected)[k].target
  {
    if edges != [] {
      var e := edges[|edges| - 1];
      var before := ModuleLinks(edges[..|edges| - 1], index, undirected);
      ModuleLinksSorted(edges[..|edges| - 1], index, undirected);
      InsertLinkSorted(before, index[e.source], index[e.target], e.flow);
      InsertLinkSorted(before, index[e.target], index[e.source], e.flow);
      InsertEnds(before, index[e.source], index[e.target], e.flow);
      InsertEnds(before, index[e.target], index[e.source], e.flow);
      var after := ModuleLinks(edges, index, undirected);
      forall k | undirected && 0 <= k < |after| ensures after[k].source < after[k].target {
        assert after[k] in after;
      }
    }
  }

  function InternalAll(edges: seq<Edge>, index: seq<nat>, numModules: nat): (r: seq<real>)
    requires EdgesOk(edges, |index|)
    ensures |r| == numModules
    ensures forall m :: 0 <= m < numModules ==> r[m] == Internal(edges, index, m)
  {
    seq(numModules, (m: nat) => Internal(edges, index, m))
  }

  /** Inside a group of modules flows what flows inside each module and what flows between them,
      whether or not opposite links were merged. */
  lemma {:induction false} ModuleLinksInternal(edges: seq<Edge>, index: seq<nat>, undirected: bool,
                                               outer: seq<nat>, s: nat)
    requires EdgesOk(edges, |index|)
    requires forall i :: 0 <= i < |index| ==> index[i] < |outer|
    ensures EdgesOk(ModuleLinks(edges, index, undirected), |outer|)
    ensures Internal(ModuleLinks(edges, index, undirected), outer, s)
            + Members(InternalAll(edges, index, |outer|), outer, s)
         == Internal(edges, Compose(index, outer), s)
  {
    var all := InternalAll(edges, index, |outer|);
    if edges == [] {
      MembersZero(all, outer, s);
    } else {
      var e := edges[|edges| - 1];
      var init := edges[..|edges| - 1];
      var before := ModuleLinks(init, index, undirected);
      ModuleLinksInternal(init, index, undirected, outer, s);
      MembersOne(InternalAll(init, index, |outer|), all, outer, s, index[e.source]);
      if index[e.source] != index[e.target] {
        InsertLinkInternal(before, index[e.source], index[e.target], e.flow, outer, s);
        InsertLinkInternal(before, index[e.target], index[e.source], e.flow, outer, s);
      }
    }
  }

  function Rename(links: seq<Edge>, position: seq<nat>): (r: seq<Edge>)
    requires EdgesOk(links, |position|)
    ensures |r| == |links|
    ensures forall k :: 0 <= k < |r| ==>
              r[k] == Edge(position[links[k].source], position[links[k].target], links[k].flow)
  {
    seq(|links|, k requires 0 <= k < |links| =>
      Edge(position[links[k].source], position[links[k].target], links[k].flow))
  }

  lemma {:induction false} RenameInternal(links: seq<Edge>, position: seq<nat>, outer: seq<nat>, s: nat)
    requires EdgesOk(links, |position|) && EdgesOk(Rename(links, position), |outer|)
    requires forall m :: 0 <= m < |position| ==> position[m] < |outer|
    ensures Internal(Rename(links, position), outer, s) == Internal(links, Compose(position, outer), s)
  {
    if links != [] {
      var n := |links| - 1;
      assert Rename(links, position)[..n] == Rename(links[..n], position);
      RenameInternal(links[..n], position, outer, s);
    }
  }

  // ----- The small network stands for the large one -----

  ghost predicate Onto(q: seq<nat>, k: nat)
  {
    (forall i :: 0 <= i < |q| ==> q[i] < k) && (forall j :: 0 <= j < k ==> j in q)
  }

  /** Every grouping of the small network has the flow data of the same grouping of the large one. */
  ghost predicate Represents(net: Network, q: seq<nat>, small: Network)
  {
    && net.Valid() && small.Valid() && |q| == |net.nodes| && Onto(q, |small.nodes|)
    && forall g: seq<nat>, s: nat :: |g| == |small.nodes| ==>
         ModuleData(small, g, s) == ModuleData(net, Compose(q, g), s)
  }

  lemma {:induction false} RepresentsValid(net: Network, q: seq<nat>, small: Network)
    requires Represents(net, q, small)
    ensures net.Valid() && small.Valid() && |q| == |net.nodes| && forall i :: 0 <= i < |q| ==> q[i] < |small.nodes|
  {
  }

  lemma {:induction false} RepresentsItself(net: Network)
    requires net.Valid()
    ensures Represents(net, Identity(|net.nodes|), net)
  {
    var q := Identity(|net.nodes|);
    forall j | 0 <= j < |net.nodes| ensures j in q {
      assert q[j] == j;
    }
    forall g: seq<nat>, s: nat | |g| == |net.nodes|
      ensures ModuleData(net, g, s) == ModuleData(net, Compose(q, g), s)
    {
      assert Compose(q, g) == g;
    }
  }

  lemma {:induction false} OntoCompose(q: seq<nat>, r: seq<nat>, k: nat)
    requires Onto(q, |r|) && Onto(r, k)
    ensures Onto(Compose(q, r), k)
  {
    forall j | 0 <= j < k ensures j in Compose(q, r) {
      assert j in r;
      var m :| 0 <= m < |r| && r[m] == j;
      assert m in q;
      var i :| 0 <= i < |q| && q[i] == m;
      assert Compose(q, r)[i] == j;
    }
  }

  lemma {:induction false} RepresentsCompose(net: Network, q: seq<nat>, middle: Network, r: seq<nat>, small: Network)
    requires Represents(net, q, middle) && Represents(middle, r, small)
    ensures Represents(net, Compose(q, r), small)
  {
    OntoCompose(q, r, |small.nodes|);
    hide Onto, ModuleData;
    forall g: seq<nat>, s: nat | |g| == |small.nodes|
      ensures ModuleData(small, g, s) == ModuleData(net, Compose(Compose(q, r), g), s)
    {
      ComposeAssociates(q, r, g);
      assert ModuleData(small, g, s) == ModuleData(middle, Compose(r, g), s);
    }
  }

  /** The flow data of a group of modules, from the modules' own data and the links between them. */
  lemma {:induction false} QuotientData(net: Network, q: seq<nat>, small: Network, g: seq<nat>, s: nat)
    requires net.Valid() && small.Valid() && |q| == |net.nodes| && |g| == |small.nodes|
    requires forall i :: 0 <= i < |q| ==> q[i] < |small.nodes|
    requires small.recordedTeleportation == net.recordedTeleportation
    requires forall j :: 0 <= j < |small.nodes| ==> small.nodes[j] == ModuleData(net, q, j)
    requires Internal(small.edges, g, s) + Members(InternalAll(net.edges, q, |g|), g, s)
          == Internal(net.edges, Compose(q, g), s)
    ensures ModuleData(small, g, s) == ModuleData(net, Compose(q, g), s)
  {
    var k := |small.nodes|;
    var taken := seq(k, (j: nat) => -(Internal(net.edges, q, j) + InternalTeleport(net, q, j)));
    forall c: Column
      ensures Members(Values(small.nodes, c), g, s)
           == Members(Values(net.nodes, c), Compose(q, g), s)
              + (if c == Enter || c == Exit then Members(taken, g, s) else 0.0)
    {
      var sums := MembersAll(Values(net.nodes, c), q, k);
      MembersCompose(Values(net.nodes, c), q, g, s);
      if c == Enter || c == Exit {
        MembersPlus(sums, taken, Values(small.nodes, c), g, s);
      } else {
        assert sums == Values(small.nodes, c);
      }
    }
    forall j | 0 <= j < k ensures TeleportsAs(small.nodes[j], MemberData(net.nodes, q, j)) {
    }
    QuotientTeleport(net, q, small, g, s);
    var tele := seq(k, (j: nat) => InternalTeleport(net, q, j));
    var zero := seq(k, (j: nat) => 0.0);
    var both := seq(k, (j: nat) => Internal(net.edges, q, j) + InternalTeleport(net, q, j));
    MembersPlus(InternalAll(net.edges, q, k), tele, both, g, s);
    MembersPlus(both, taken, zero, g, s);
    MembersZero(zero, g, s);
    var d, e := MemberData(small.nodes, g, s), MemberData(net.nodes, Compose(q, g), s);
    assert d.Get(Flow) == e.Get(Flow) && d.Get(Teleport) == e.Get(Teleport) && d.Get(Source) == e.Get(Source)
        && d.Get(Weight) == e.Get(Weight) && d.Get(Dangling) == e.Get(Dangling);
    assert d.Get(Enter) == e.Get(Enter) + Members(taken, g, s);
    assert d.Get(Exit) == e.Get(Exit) + Members(taken, g, s);
  }

  lemma {:induction false} TeleportedSame(d: FlowData, e: FlowData)
    ensures d.teleportFlow == e.teleportFlow && d.teleportWeight == e.teleportWeight ==>
              d.Teleported() == e.Teleported()
  {
  }

  predicate TeleportsAs(d: FlowData, e: FlowData)
  {
    d.teleportFlow == e.teleportFlow && d.teleportWeight == e.teleportWeight
  }

  /** T*W - sum(t*w) telescopes over the two levels. */
  lemma {:induction false} QuotientTeleport(net: Network, q: seq<nat>, small: Network, g: seq<nat>, s: nat)
    requires |q| == |net.nodes| && |g| == |small.nodes|
    requires forall i :: 0 <= i < |q| ==> q[i] < |small.nodes|
    requires small.recordedTeleportation == net.recordedTeleportation
    requires forall j :: 0 <= j < |small.nodes| ==> TeleportsAs(small.nodes[j], MemberData(net.nodes, q, j))
    ensures InternalTeleport(small, g, s)
            + Members(seq(|small.nodes|, (j: nat) => InternalTeleport(net, q, j)), g, s)
         == InternalTeleport(net, Compose(q, g), s)
  {
    var k := |small.nodes|;
    var tele := seq(k, (j: nat) => InternalTeleport(net, q, j));
    forall j | 0 <= j < k ensures small.nodes[j].Teleported() == MemberData(net.nodes, q, j).Teleported() {
    }
    var d, e := MemberData(small.nodes, g, s), MemberData(net.nodes, Compose(q, g), s);
    TeleportedSame(d, e);
    hide FlowData.Teleported;
    if !net.recordedTeleportation {
      MembersZero(tele, g, s);
    } else {
      var own := MembersAll(SelfTeleports(net.nodes), q, k);
      forall j | 0 <= j < k ensures SelfTeleports(small.nodes)[j] == tele[j] + own[j] {
      }
      MembersPlus(tele, own, SelfTeleports(small.nodes), g, s);
      MembersCompose(SelfTeleports(net.nodes), q, g, s);
      forall c: Column | c == Teleport || c == Weight
        ensures Members(Values(small.nodes, c), g, s) == Members(Values(net.nodes, c), Compose(q, g), s)
      {
        MembersCompose(Values(net.nodes, c), q, g, s);
        assert MembersAll(Values(net.nodes, c), q, k) == Values(small.nodes, c);
      }
      assert d.Get(Teleport) == e.Get(Teleport) && d.Get(Weight) == e.Get(Weight);
    }
  }

  /** The network a consolidation builds: one node per listed module, carrying that module's data,
      and the aggregated links between them. */
  function Consolidated(net: Network, index: seq<nat>, undirected: bool, ids: seq<nat>, position: seq<nat>): Network
    requires net.Valid() && net.Partition(index) && |position| == |net.nodes|
    requires EdgesOk(ModuleLinks(net.edges, index, undirected), |position|)
  {
    Network(seq(|ids|, j requires 0 <= j < |ids| => ModuleData(net, index, ids[j])),
            Rename(ModuleLinks(net.edges, index, undirected), position),
            net.recordedTeleportation)
  }

  /** ids lists the non-empty modules once each, and position is its inverse. */
  ghost predicate Numbering(index: seq<nat>, ids: seq<nat>, position: seq<nat>)
  {
    && |position| == |index| && |ids| > 0
    && (forall m :: 0 <= m < |position| ==> position[m] < |ids|)
    && (forall j :: 0 <= j < |ids| ==> ids[j] < |position| && position[ids[j]] == j && ids[j] in index)
    && (forall i :: 0 <= i < |index| ==> index[i] < |position| && ids[position[index[i]]] == index[i])
  }

  /** Consolidation is an exact quotient. */
  lemma {:induction false} ConsolidatedRepresents(net: Network, index: seq<nat>, undirected: bool,
                                                  ids: seq<nat>, position: seq<nat>)
    requires net.Valid() && net.Partition(index) && Numbering(index, ids, position)
    ensures EdgesOk(ModuleLinks(net.edges, index, undirected), |position|)
    ensures Represents(net, Compose(index, position), Consolidated(net, index, undirected, ids, position))
  {
    var q := Compose(index, position);
    ModuleLinksInternal(net.edges, index, undirected, position, 0);
    var small := Consolidated(net, index, undirected, ids, position);
    LinkEnds(net.edges, index, undirected);
    forall j | 0 <= j < |ids| ensures j in q {
      var i :| 0 <= i < |index| && index[i] == ids[j];
      assert q[i] == j;
    }
    forall g: seq<nat>, s: nat | |g| == |ids|
      ensures ModuleData(small, g, s) == ModuleData(net, Compose(q, g), s)
    {
      ConsolidatedData(net, index, undirected, ids, position, g, s);
    }
  }

  lemma {:induction false} ConsolidatedData(net: Network, index: seq<nat>, undirected: bool,
                                            ids: seq<nat>, position: seq<nat>, g: seq<nat>, s: nat)
    requires net.Valid() && net.Partition(index) && Numbering(index, ids, position) && |g| == |ids|
    requires EdgesOk(ModuleLinks(net.edges, index, undirected), |position|)
    requires Consolidated(net, index, undirected, ids, position).Valid()
    ensures ModuleData(Consolidated(net, index, undirected, ids, position), g, s)
         == ModuleData(net, Compose(Compose(index, position), g), s)
  {
    var q := Compose(index, position);
    var small := Consolidated(net, index, undirected, ids, position);
    forall j | 0 <= j < |ids| ensures small.nodes[j] == ModuleData(net, q, j) {
      SameUnderPosition(net, index, ids, position, j);
    }
    ModuleLinksInternal(net.edges, index, undirected, Compose(position, g), s);
    ComposeAssociates(index, position, g);
    RenameInternal(ModuleLinks(net.edges, index, undirected), position, g, s);
    InternalPerGroup(net.edges, index, ids, position, g, s);
    hide ModuleData;
    QuotientData(net, q, small, g, s);
  }

  lemma {:induction false} LinkEnds(edges: seq<Edge>, index: seq<nat>, undirected: bool)
    requires EdgesOk(edges, |index|)
    ensures forall e :: e in ModuleLinks(edges, index, undirected) ==>
              e.source in index && e.target in index && e.source != e.target
  {
    if edges != [] {
      var e := edges[|edges| - 1];
      var before := ModuleLinks(edges[..|edges| - 1], index, undirected);
      LinkEnds(edges[..|edges| - 1], index, undirected);
      InsertEnds(before, index[e.source], index[e.target], e.flow);
      InsertEnds(before, index[e.target], index[e.source], e.flow);
    }
  }

  /** The members of the j-th module are the nodes at position j. */
  lemma {:induction false} SameUnderPosition(net: Network, index: seq<nat>, ids: seq<nat>, position: seq<nat>, j: nat)
    requires net.Valid() && net.Partition(index) && Numbering(index, ids, position) && j < |ids|
    ensures ModuleData(net, index, ids[j]) == ModuleData(net, Compose(index, position), j)
    ensures Internal(net.edges, index, ids[j]) == Internal(net.edges, Compose(index, position), j)
  {
    var q := Compose(index, position);
    forall i | 0 <= i < |index| ensures index[i] == ids[j] <==> q[i] == j {
    }
    RelabelSame(net, index, ids[j], q, j);
  }

  /** Module data does not depend on the name of the module. */
  lemma {:induction false} RelabelSame(net: Network, index: seq<nat>, m: nat, other: seq<nat>, m': nat)
    requires net.Valid() && |net.nodes| == |index| == |other|
    requires forall i :: 0 <= i < |index| ==> (index[i] == m <==> other[i] == m')
    ensures ModuleData(net, index, m) == ModuleData(net, other, m')
    ensures Internal(net.edges, index, m) == Internal(net.edges, other, m')
  {
    forall w: seq<real> | |w| == |index| ensures Members(w, index, m) == Members(w, other, m') {
      MembersRelabel(w, index, m, other, m');
    }
    InternalRelabel(net.edges, index, m, other, m');
  }

  lemma {:induction false} InternalRelabel(edges: seq<Edge>, index: seq<nat>, m: nat, other: seq<nat>, m': nat)
    requires |index| == |other| && EdgesOk(edges, |index|)
    requires forall i :: 0 <= i < |index| ==> (index[i] == m <==> other[i] == m')
    ensures Internal(edges, index, m) == Internal(edges, other, m')
  {
    if edges != [] { InternalRelabel(edges[..|edges| - 1], index, m, other, m'); }
  }

  /** Internal flow summed over the modules of a group, named by module or by position. */
  lemma {:induction false} InternalPerGroup(edges: seq<Edge>, index: seq<nat>, ids: seq<nat>, position: seq<nat>,
                                            g: seq<nat>, s: nat)
    requires EdgesOk(edges, |index|) && Numbering(index, ids, position) && |g| == |ids|
    ensures Members(InternalAll(edges, index, |index|), Compose(position, g), s)
         == Members(InternalAll(edges, Compose(index, position), |g|), g, s)
  {
    var q := Compose(index, position);
    if edges == [] {
      MembersZero(InternalAll(edges, index, |index|), Compose(position, g), s);
      MembersZero(InternalAll(edges, q, |g|), g, s);
    } else {
      var e := edges[|edges| - 1];
      var init := edges[..|edges| - 1];
      InternalPerGroup(init, index, ids, position, g, s);
      assert index[e.source] == index[e.target] <==> q[e.source] == q[e.target];
      MembersOne(InternalAll(init, index, |index|), InternalAll(edges, index, |index|), Compose(position, g), s,
                 index[e.source]);
      MembersOne(InternalAll(init, q, |g|), InternalAll(edges, q, |g|), g, s, q[e.source]);
    }
  }

  // ----- Consequences for the objective -----

  lemma {:induction false} CountOnto(q: seq<nat>, g: seq<nat>, s: nat)
    requires Onto(q, |g|)
    ensures Count(g, s) == 0 <==> Count(Compose(q, g), s) == 0
  {
    CountZero(g, s);
    CountZero(Compose(q, g), s);
    if s in g {
      var j :| 0 <= j < |g| && g[j] == s;
      assert j in q;
      var i :| 0 <= i < |q| && q[i] == j;
      assert Compose(q, g)[i] == s;
    }
  }

  /** The objective of a grouping of the small network is the objective of the same grouping of
      the large one. */
  lemma {:induction false} ObjectiveRepresented(setting: Setting, net: Network, q: seq<nat>, small: Network,
                                                g: seq<nat>)
    requires Represents(net, q, small) && small.Partition(g)
    requires setting.code.PLogP(0.0) == 0.0 && setting.bias.totalDegree != 0.0
    requires |small.nodes| <= |net.nodes|
    ensures Objective(setting, small, g) == Objective(setting, net, Compose(q, g))
  {
    var h := Compose(q, g);
    var few, many := AllModuleData(small, g), AllModuleData(net, h);
    var ids := Identity(|few|);
    forall m | 0 <= m < |few| ensures m in ids {
      assert ids[m] == m;
    }
    forall m | |few| <= m < |many| ensures many[m] == ZERO_FLOW {
      ModuleDataEmpty(net, h, m);
    }
    CodelengthSelect(setting, many, ids, few);
    NumActiveOnto(q, g, |net.nodes|);
  }

  /** Starting over on the consolidated network gives the objective of the partition that was
      consolidated; the empty modules that are dropped contribute nothing. */
  lemma {:induction false} ConsolidatedObjective(setting: Setting, net: Network, index: seq<nat>, undirected: bool,
                                                 ids: seq<nat>, position: seq<nat>)
    requires net.Valid() && net.Partition(index) && Numbering(index, ids, position)
    requires setting.code.PLogP(0.0) == 0.0 && setting.bias.totalDegree != 0.0
    ensures EdgesOk(ModuleLinks(net.edges, index, undirected), |position|)
    ensures var small := Consolidated(net, index, undirected, ids, position);
            && small.Valid() && NumModules(net, index) == |small.nodes| == |ids|
            && Objective(setting, small, Identity(|ids|)) == Objective(setting, net, index)
  {
    ConsolidatedRepresents(net, index, undirected, ids, position);
    ConsolidatedNodes(setting, net, index, undirected, ids, position);
    hide Codelength, AllModuleData, ModuleLinks, Represents, NumModules, Numbering;
    ObjectiveOfSingletons(setting, Consolidated(net, index, undirected, ids, position), Identity(|ids|));
  }

  lemma {:induction false} ConsolidatedNodes(setting: Setting, net: Network, index: seq<nat>, undirected: bool,
                                             ids: seq<nat>, position: seq<nat>)
    requires net.Valid() && net.Partition(index) && Numbering(index, ids, position)
    requires EdgesOk(ModuleLinks(net.edges, index, undirected), |position|)
    requires setting.code.PLogP(0.0) == 0.0
    ensures NumModules(net, index) == |ids|
    ensures Codelength(setting.code, setting.exitNetworkFlow, setting.nodeFlowLog, AllModuleData(net, index))
         == Codelength(setting.code, setting.exitNetworkFlow, setting.nodeFlowLog,
                       Consolidated(net, index, undirected, ids, position).nodes)
  {
    NumberingPicks(net, index, ids, position);
    CodelengthSelect(setting, AllModuleData(net, index), ids,
        Consolidated(net, index, undirected, ids, position).nodes);
    NumActiveSelect(AllMembers(index, |net.nodes|), ids);
  }

  lemma {:induction false} NumberingPicks(net: Network, index: seq<nat>, ids: seq<nat>, position: seq<nat>)
    requires net.Valid() && net.Partition(index) && Numbering(index, ids, position)
    ensures Distinct(ids)
    ensures forall m :: 0 <= m < |index| && m !in ids ==>
              AllModuleData(net, index)[m] == ZERO_FLOW && AllMembers(index, |index|)[m] == 0
    ensures forall j :: 0 <= j < |ids| ==> AllMembers(index, |index|)[ids[j]] > 0
  {
    forall i, j | 0 <= i < j < |ids| ensures ids[i] != ids[j] {
      assert position[ids[i]] == i && position[ids[j]] == j;
    }
    forall m | 0 <= m < |index| && m !in ids
      ensures AllModuleData(net, index)[m] == ZERO_FLOW && AllMembers(index, |index|)[m] == 0
    {
      forall i | 0 <= i < |index| ensures index[i] != m {
        assert ids[position[index[i]]] == index[i];
      }
      CountZero(index, m);
      ModuleDataEmpty(net, index, m);
    }
    forall j | 0 <= j < |ids| ensures AllMembers(index, |index|)[ids[j]] > 0 {
      CountZero(index, ids[j]);
    }
  }

  lemma {:induction false} NumActiveOnto(q: seq<nat>, g: seq<nat>, n: nat)
    requires Onto(q, |g|) && |g| <= n && |q| == n
    requires forall j :: 0 <= j < |g| ==> g[j] < |g|
    ensures NumActive(AllMembers(g, |g|)) == NumActive(AllMembers(Compose(q, g), n))
  {
    NumActiveTail(AllMembers(g, |g|), AllMembers(Compose(q, g), n)) by {
      forall s | 0 <= s < |g| ensures AllMembers(g, |g|)[s] == 0 <==> AllMembers(Compose(q, g), n)[s] == 0 {
        CountOnto(q, g, s);
      }
      forall s | |g| <= s < n ensures AllMembers(Compose(q, g), n)[s] == 0 {
        CountZero(Compose(q, g), s);
      }
    }
  }

  lemma {:induction false} NumActiveTail(few: seq<nat>, many: seq<nat>)
    requires |few| <= |many|
    requires forall s :: 0 <= s < |few| ==> (few[s] == 0 <==> many[s] == 0)
    requires forall s :: |few| <= s < |many| ==> many[s] == 0
    ensures NumActive(few) == NumActive(many)
    decreases |many|
  {
    if |many| > |few| {
      NumActiveTail(few, many[..|many| - 1]);
    } else if many != [] {
      NumActiveTail(few[..|few| - 1], many[..|many| - 1]);
    }
  }

  /** There are never more modules than nodes. */
  lemma {:induction false} OntoSize(q: seq<nat>, k: nat)
    requires Onto(q, k)
    ensures k <= |q|
  {
    TotalMembers(q, k);
    forall m | 0 <= m < k ensures AllMembers(q, k)[m] > 0 {
      CountZero(q, m);
    }
    TotalAtLeast(AllMembers(q, k));
  }

  // ----- Numbering the modules -----

  datatype Option<T> = None | Some(value: T)

  /** The modules in order of first appearance among the nodes; a module is allocated exactly if
      it has a member. */
  method NumberModules(index: seq<nat>) returns (ids: seq<nat>, modules: seq<Option<nat>>, position: seq<nat>)
    requires |index| > 0 && forall i :: 0 <= i < |index| ==> index[i] < |index|
    ensures Numbering(index, ids, position)
    ensures |modules| == |index|
    ensures forall m :: 0 <= m < |modules| ==> (m in index <==> modules[m].Some?)
    ensures forall m :: 0 <= m < |modules| && modules[m].Some? ==> modules[m].value == position[m]
  {
    ids := [];
    modules := seq(|index|, (m: nat) => None);
    for i := 0 to |index|
      invariant |modules| == |index|
      invariant forall j :: 0 <= j < |ids| ==> ids[j] < |index| && modules[ids[j]] == Some(j) && ids[j] in index
      invariant forall m :: 0 <= m < |index| && modules[m].Some? ==>
                modules[m].value < |ids| && ids[modules[m].value] == m
      invariant forall k :: 0 <= k < i ==> modules[index[k]].Some?
    {
      var moduleIndex := index[i];
      if modules[moduleIndex].None? {
        modules := modules[moduleIndex := Some(|ids|)];
        ids := ids + [moduleIndex];
      }
    }
    assert modules[index[0]].Some?;
    position := seq(|modules|, m requires 0 <= m < |modules| => if modules[m].Some? then modules[m].value else 0);
  }

  /** Aggregate the flow between modules. */
  method AggregateModuleLinks(net: Network, index: seq<nat>, undirected: bool) returns (links: seq<Edge>)
    requires net.Valid() && net.Partition(index)
    ensures EdgesOk(net.edges, |index|) && links == ModuleLinks(net.edges, index, undirected)
  {
    links := [];
    for k := 0 to |net.edges|
      invariant links == ModuleLinks(net.edges[..k], index, undirected)
    {
      assert net.edges[..k + 1][..k] == net.edges[..k];
      links := AddEdge(links, net.edges[k], index, undirected);
    }
    assert net.edges[..|net.edges|] == net.edges;
  }

  lemma {:induction false} SameGroups(index: seq<nat>, ids: seq<nat>, position: seq<nat>)
    requires Numbering(index, ids, position)
    ensures var assignment := Compose(index, position);
            forall i, j :: 0 <= i < |index| && 0 <= j < |index| ==>
                (assignment[i] == assignment[j] <==> index[i] == index[j])
  {
  }

  function PickModules(modules: seq<FlowData>, ids: seq<nat>): (r: seq<FlowData>)
    requires forall j :: 0 <= j < |ids| ==> ids[j] < |modules|
    ensures |r| == |ids| && forall j :: 0 <= j < |ids| ==> r[j] == modules[ids[j]]
  {
    seq(|ids|, j requires 0 <= j < |ids| => modules[ids[j]])
  }
}
