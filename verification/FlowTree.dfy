/** Aggregating flow from the leaf nodes to the modules above them, on trees of any shape.

    Additive flow is summed up the tree in post-order. Link flow is added by climbing from both
    ends of every link to their lowest common ancestor. The result is, for every module, the flow
    of the links that have one end below it. */
module FlowTrees {
  import opened Sums
  import opened FlowNetwork
  import opened BoundaryFlow
  import opened Partitions

  /** Node 0 is the root; every other node has a parent one level up. Leaves may sit at different
      depths. */
  datatype Tree = Tree(parent: seq<nat>, depth: seq<nat>)
  {
    predicate Valid()
    {
      && |parent| == |depth| && |parent| > 0 && depth[0] == 0 && parent[0] == 0
      && forall x :: 0 < x < |parent| ==> parent[x] < |parent| && depth[x] == depth[parent[x]] + 1
    }

    /** Node x is m or below m. */
    predicate Under(x: nat, m: nat)
      requires Valid() && x < |parent|
      decreases depth[x]
    {
      x == m || (x != 0 && Under(parent[x], m))
    }

    predicate IsLeaf(x: nat)
      requires Valid() && x < |parent|
    {
      forall y :: 0 < y < |parent| ==> parent[y] != x
    }

    lemma {:induction false} UnderDepth(x: nat, m: nat)
      requires Valid() && x < |parent| && Under(x, m)
      ensures m < |parent| && depth[m] <= depth[x] && (depth[m] == depth[x] ==> x == m)
      decreases depth[x]
    {
      if x != m { UnderDepth(parent[x], m); }
    }

    /** Everything is below the root. */
    lemma {:induction false} UnderRoot(x: nat)
      requires Valid() && x < |parent|
      ensures Under(x, 0)
      decreases depth[x]
    {
      if x != 0 { UnderRoot(parent[x]); }
    }

    lemma {:induction false} UnderTransitive(x: nat, y: nat, m: nat)
      requires Valid() && x < |parent| && Under(x, y) && y < |parent| && Under(y, m)
      ensures Under(x, m)
      decreases depth[x]
    {
      if x != y { UnderTransitive(parent[x], y, m); }
    }

    /** Going up one step from x leaves out x itself and nothing else. */
    lemma {:induction false} UnderStep(x: nat, m: nat)
      requires Valid() && 0 < x < |parent|
      ensures Under(x, m) <==> x == m || Under(parent[x], m)
      ensures !Under(parent[x], x)
    {
      if Under(parent[x], x) {
        UnderDepth(parent[x], x);
      }
    }

    /** The child of m on the way down to x. */
    function Toward(x: nat, m: nat): (c: nat)
      requires Valid() && x < |parent| && Under(x, m) && x != m
      ensures 0 < c < |parent| && parent[c] == m && Under(x, c)
      decreases depth[x]
    {
      if parent[x] == m then x
      else
        var c := Toward(parent[x], m);
        assert Under(x, c);
        c
    }

    /** There is only one child of m above x. */
    lemma {:induction false} TowardUnique(x: nat, m: nat, c: nat)
      requires Valid() && x < |parent| && Under(x, m) && x != m
      requires 0 < c < |parent| && parent[c] == m && Under(x, c)
      ensures Toward(x, m) == c
      decreases depth[x]
    {
      if x != c {
        UnderDepth(parent[x], c);
        if parent[x] != m { TowardUnique(parent[x], m, c); }
      }
    }

    // ----- Sums over the nodes below a node -----

    function UnderIndex(m: nat): (r: seq<nat>)
      requires Valid()
      ensures |r| == |parent|
      ensures forall x :: 0 <= x < |r| ==> r[x] == if Under(x, m) then 1 else 0
    {
      seq(|parent|, x requires 0 <= x < |parent| => if Under(x, m) then 1 else 0)
    }

    function SumUnder(w: seq<real>, m: nat): real
      requires Valid() && |w| == |parent|
    {
      Members(w, UnderIndex(m), 1)
    }

    /** Sums below every node but the root. */
    function Totals(w: seq<real>): (r: seq<real>)
      requires Valid() && |w| == |parent|
      ensures |r| == |parent|
      ensures forall x :: 0 <= x < |r| ==> r[x] == if x == 0 then 0.0 else SumUnder(w, x)
    {
      seq(|parent|, x requires 0 <= x < |parent| => if x == 0 then 0.0 else SumUnder(w, x))
    }

    /** The parent of every node, with none for the root. */
    function ParentIndex(): (r: seq<nat>)
      requires Valid()
      ensures |r| == |parent|
      ensures forall x :: 0 <= x < |r| ==> r[x] == if x == 0 then |parent| else parent[x]
    {
      seq(|parent|, x requires 0 <= x < |parent| => if x == 0 then |parent| else parent[x])
    }

    /** What is below a node is the node itself and what is below its children. */
    lemma {:induction false} SumOfChildren(w: seq<real>, m: nat)
      requires Valid() && |w| == |parent| && m < |parent|
      ensures SumUnder(w, m) == w[m] + Members(Totals(w), ParentIndex(), m)
    {
      var n := |parent|;
      var toward := seq(n, x requires 0 <= x < n => if Under(x, m) && x != m then Toward(x, m) else 0);
      var p := ParentIndex();
      MembersCompose(w, toward, p, m);
      var all := MembersAll(w, toward, n);
      forall c | 0 <= c < n && p[c] == m ensures all[c] == Totals(w)[c] {
        forall x | 0 <= x < n ensures toward[x] == c <==> UnderIndex(c)[x] == 1 {
          if Under(x, c) {
            UnderStep(c, m);
            UnderTransitive(x, c, m);
            UnderDepth(x, c);
            TowardUnique(x, m, c);
          }
        }
        MembersRelabel(w, toward, c, UnderIndex(c), 1);
      }
      MembersAgree(all, Totals(w), p, m);
      var strictly := Compose(toward, p);
      var own := UnderIndex(m)[m := 0];
      forall x | 0 <= x < n ensures strictly[x] == m <==> own[x] == 1 {
      }
      MembersRelabel(w, strictly, m, own, 1);
      MembersMove(w, own, m, 1, 1);
      assert own[m := 1] == UnderIndex(m);
    }

    /** A leaf has nothing below it but itself. */
    lemma {:induction false} NoChildren(w: seq<real>, m: nat)
      requires Valid() && |w| == |parent| && m < |parent| && IsLeaf(m)
      ensures SumUnder(w, m) == w[m]
    {
      SumOfChildren(w, m);
      MembersZero(Totals(w), ParentIndex(), m);
    }
  }

  // ----- Post-order -----

  /** Every node once, children before their parent. */
  ghost predicate PostOrder(tree: Tree, order: seq<nat>)
    requires tree.Valid()
  {
    && Distinct(order) && (forall k :: 0 <= k < |order| ==> order[k] < |tree.parent|)
    && (forall x :: 0 <= x < |tree.parent| ==> x in order)
    && forall i, j :: 0 <= i < |order| && 0 <= j < |order| && order[i] != 0 && tree.parent[order[i]] == order[j] ==>
       i < j
  }

  /** Sums below the nodes that have been handed to their parents. */
  ghost function Handed(tree: Tree, w: seq<real>, done: seq<nat>): (r: seq<real>)
    requires tree.Valid() && |w| == |tree.parent|
    ensures |r| == |w|
    ensures forall x :: 0 <= x < |r| ==> r[x] == if x in done then tree.Totals(w)[x] else 0.0
  {
    seq(|w|, x requires 0 <= x < |w| => if x in done then tree.Totals(w)[x] else 0.0)
  }

  /** When a node's turn comes, it holds everything below it; then its parent gets it. */
  lemma {:induction false} HandOver(tree: Tree, w: seq<real>, order: seq<nat>, k: nat, m: nat)
    requires tree.Valid() && |w| == |tree.parent| && PostOrder(tree, order) && k < |order| && m < |w|
    ensures w[order[k]] + Members(Handed(tree, w, order[..k]), tree.ParentIndex(), order[k])
              == tree.SumUnder(w, order[k])
    ensures Members(Handed(tree, w, order[..k + 1]), tree.ParentIndex(), m)
         == Members(Handed(tree, w, order[..k]), tree.ParentIndex(), m)
            + (if order[k] != 0 && tree.parent[order[k]] == m then tree.SumUnder(w, order[k]) else 0.0)
  {
    var x := order[k];
    var before, after, p := Handed(tree, w, order[..k]), Handed(tree, w, order[..k + 1]), tree.ParentIndex();
    forall c | 0 <= c < |w| && p[c] == x ensures before[c] == tree.Totals(w)[c] {
      assert c in order;
      var i :| 0 <= i < |order| && order[i] == c;
      assert order[..k][i] == c;
    }
    MembersAgree(before, tree.Totals(w), p, x);
    tree.SumOfChildren(w, x);
    assert order[..k + 1] == order[..k] + [x];
    assert x !in order[..k];
    MembersOne(before, after, p, m, x);
  }

  predicate Additive(c: Column) { c != Enter && c != Exit }

  /** Leaf data, with nothing on the modules. */
  ghost predicate OnLeavesOnly(tree: Tree, base: seq<FlowData>)
    requires tree.Valid()
  {
    && |base| == |tree.parent|
    && forall x :: 0 <= x < |base| && !tree.IsLeaf(x) ==> base[x] == ZERO_FLOW
  }

  // ----- Link flow between two subtrees -----

  /** Module data with the flow of one link added, as far as the link leaves or enters the module. */
  function AddFlow(undirected: bool, d: FlowData, flow: real, leaves: bool, enters: bool): FlowData
  {
    if undirected then
      d.Shift((if leaves then flow / 2.0 else 0.0) + (if enters then flow / 2.0 else 0.0))
    else
      d.(exitFlow := d.exitFlow + (if leaves then flow else 0.0), enterFlow :=
          d.enterFlow + (if enters then flow else 0.0))
  }

  /** x has climbed from p as far as a common ancestor of p and q has not been passed. */
  ghost predicate Climbed(tree: Tree, p: nat, q: nat, x: nat, y: nat)
    requires tree.Valid() && p < |tree.parent| && q < |tree.parent| && x < |tree.parent| && y < |tree.parent|
  {
    && tree.Under(p, x) && tree.Under(q, y)
    && forall m :: 0 <= m < |tree.parent| && tree.Under(p, m) && tree.Under(q, m) ==>
       tree.Under(x, m) && tree.Under(y, m)
  }

  /** A step up from the deeper end, or from both ends at equal depth, passes no common ancestor. */
  lemma {:induction false} ClimbStep(tree: Tree, p: nat, q: nat, x: nat, y: nat)
    requires tree.Valid() && p < |tree.parent| && q < |tree.parent| && x < |tree.parent| && y < |tree.parent|
    requires Climbed(tree, p, q, x, y)
    ensures tree.depth[x] > tree.depth[y] ==> x != 0 && Climbed(tree, p, q, tree.parent[x], y)
    ensures tree.depth[x] < tree.depth[y] ==> y != 0 && Climbed(tree, p, q, x, tree.parent[y])
    ensures tree.depth[x] == tree.depth[y] && x != y ==>
              x != 0 && y != 0 && Climbed(tree, p, q, tree.parent[x], tree.parent[y])
  {
    forall m | 0 <= m < |tree.parent| && tree.Under(p, m) && tree.Under(q, m)
      ensures tree.depth[x] >= tree.depth[y] && x != y ==> m != x
      ensures tree.depth[y] >= tree.depth[x] && x != y ==> m != y
    {
      tree.UnderDepth(x, m);
      tree.UnderDepth(y, m);
    }
    if tree.depth[x] == tree.depth[y] && x != y {
      tree.UnderRoot(p);
      tree.UnderRoot(q);
      tree.UnderDepth(x, 0);
      tree.UnderDepth(y, 0);
    }
    if x != 0 {
      tree.UnderTransitive(p, x, tree.parent[x]);
    }
    if y != 0 {
      tree.UnderTransitive(q, y, tree.parent[y]);
    }
  }

  /** Where both ends meet, what was passed is what contains one end and not the other. */
  lemma {:induction false} ClimbEnd(tree: Tree, p: nat, q: nat, x: nat, m: nat)
    requires tree.Valid() && p < |tree.parent| && q < |tree.parent| && x < |tree.parent| && m < |tree.parent|
    requires Climbed(tree, p, q, x, x)
    ensures (tree.Under(p, m) && !tree.Under(x, m)) <==> (tree.Under(p, m) && !tree.Under(q, m))
    ensures (tree.Under(q, m) && !tree.Under(x, m)) <==> (tree.Under(q, m) && !tree.Under(p, m))
  {
    if tree.Under(x, m) {
      tree.UnderTransitive(p, x, m);
      tree.UnderTransitive(q, x, m);
    }
  }

  class FlowTree {
    const tree: Tree
    const leafNodes: seq<nat>
    const edges: seq<Edge>
    const model: Model
    var data: seq<FlowData>

    constructor (tree: Tree, leafNodes: seq<nat>, edges: seq<Edge>, model: Model, data: seq<FlowData>)
      ensures this.tree == tree && this.leafNodes == leafNodes && this.edges == edges && this.model == model
      ensures this.data == data
    {
      this.tree, this.leafNodes, this.edges, this.model, this.data := tree, leafNodes, edges, model, data;
    }

    /** leafNodes lists the leaves of the tree, edges run between positions in that list, and no
        leaf is the root. */
    ghost predicate Valid()
      reads this
    {
      && tree.Valid() && |data| == |tree.parent| && Distinct(leafNodes) && EdgesOk(edges, |leafNodes|)
      && (forall i :: 0 <= i < |leafNodes| ==> 0 < leafNodes[i] < |tree.parent| && tree.IsLeaf(leafNodes[i]))
      && (forall x :: 0 <= x < |tree.parent| && tree.IsLeaf(x) ==> x in leafNodes)
    }

    /** Clear the modules. */
    method ResetModules()
      requires Valid()
      modifies this
      ensures Valid() && OnLeavesOnly(tree, data)
      ensures forall x :: 0 <= x < |data| && tree.IsLeaf(x) ==> data[x] == old(data)[x]
    {
      for x := 0 to |data|
        invariant Valid() && |data| == |old(data)|
        invariant forall y :: x <= y < |data| ==> data[y] == old(data)[y]
        invariant forall y :: 0 <= y < x ==> data[y] == if tree.IsLeaf(y) then old(data)[y] else ZERO_FLOW
      {
        if !tree.IsLeaf(x) {
          data := data[x := ZERO_FLOW];
        }
      }
    }

    /** Hand the additive flow of every node to its parent, in post-order. */
    method AggregateUp(order: seq<nat>)
      requires Valid() && PostOrder(tree, order) && OnLeavesOnly(tree, data)
      modifies this
      ensures Valid()
      ensures forall m, c: Column :: 0 <= m < |data| && Additive(c) ==>
                data[m].Get(c) == tree.SumUnder(Values(old(data), c), m)
      ensures forall m, c: Column :: 0 <= m < |data| && !Additive(c) ==> data[m].Get(c) == old(data)[m].Get(c)
    {
      hide Tree.SumUnder, Tree.Under, Members;
      ghost var base := data;
      forall m, c: Column | 0 <= m < |data| && Additive(c)
        ensures Members(Handed(tree, Values(base, c), order[..0]), tree.ParentIndex(), m) == 0.0
      {
        MembersZero(Handed(tree, Values(base, c), order[..0]), tree.ParentIndex(), m);
      }
      for k := 0 to |order|
        invariant Valid()
        invariant forall m, c: Column :: 0 <= m < |data| && Additive(c) ==>
                    data[m].Get(c) == base[m].Get(c)
                        + Members(Handed(tree, Values(base, c), order[..k]), tree.ParentIndex(), m)
        invariant forall m, c: Column :: 0 <= m < |data| && !Additive(c) ==> data[m].Get(c) == base[m].Get(c)
      {
        forall m, c: Column | 0 <= m < |data| && Additive(c)
          ensures Members(Handed(tree, Values(base, c), order[..k + 1]), tree.ParentIndex(), m)
               == Members(Handed(tree, Values(base, c), order[..k]), tree.ParentIndex(), m)
                  + (if order[k] != 0 && tree.parent[order[k]] == m then data[order[k]].Get(c) else 0.0)
        {
          HandOver(tree, Values(base, c), order, k, m);
        }
        var node := data[order[k]];
        if order[k] != 0 {
          var p := tree.parent[order[k]];
          data := data[p := data[p].(flow := data[p].flow + node.flow,
                                     teleportFlow := data[p].teleportFlow + node.teleportFlow,
                                     teleportSourceFlow := data[p].teleportSourceFlow + node.teleportSourceFlow,
                                     teleportWeight := data[p].teleportWeight + node.teleportWeight,
                                     danglingFlow := data[p].danglingFlow + node.danglingFlow)];
        }
      }
      assert order[..|order|] == order;
      forall m, c: Column | 0 <= m < |data| && Additive(c)
        ensures data[m].Get(c) == tree.SumUnder(Values(base, c), m)
      {
        assert Handed(tree, Values(base, c), order) == tree.Totals(Values(base, c));
        tree.SumOfChildren(Values(base, c), m);
      }
    }

    /** Climb from both ends of a link to their lowest common ancestor. Exactly the modules that
        contain one end and not the other get its flow. */
    method AddLink(e: Edge)
      requires Valid() && e.source < |leafNodes| && e.target < |leafNodes|
      modifies this
      ensures Valid()
      ensures forall m :: 0 <= m < |data| ==>
                data[m] == AddFlow(model.undirected, old(data)[m], e.flow,
                                   tree.Under(tree.parent[leafNodes[e.source]], m)
                                       && !tree.Under(tree.parent[leafNodes[e.target]], m),
                                   tree.Under(tree.parent[leafNodes[e.target]], m)
                                       && !tree.Under(tree.parent[leafNodes[e.source]], m))
    {
      var p, q := tree.parent[leafNodes[e.source]], tree.parent[leafNodes[e.target]];
      var x: nat, y: nat := p, q;
      while x != y
        invariant Valid() && x < |data| && y < |data| && |data| == |old(data)|
        invariant Climbed(tree, p, q, x, y)
        invariant forall m :: 0 <= m < |data| ==>
                    data[m] == AddFlow(model.undirected, old(data)[m], e.flow,
                                       tree.Under(p, m) && !tree.Under(x, m), tree.Under(q, m) && !tree.Under(y, m))
        decreases tree.depth[x] + tree.depth[y]
      {
        ClimbStep(tree, p, q, x, y);
        var up1, up2 := tree.depth[x] >= tree.depth[y], tree.depth[y] >= tree.depth[x];
        if up1 {
          data := data[x := AddFlow(model.undirected, data[x], e.flow, true, false)];
          tree.UnderStep(x, x);
          x := tree.parent[x];
        }
        if up2 {
          data := data[y := AddFlow(model.undirected, data[y], e.flow, false, true)];
          tree.UnderStep(y, y);
          y := tree.parent[y];
        }
      }
      forall m | 0 <= m < |data|
        ensures (tree.Under(p, m) && !tree.Under(x, m)) <==> (tree.Under(p, m) && !tree.Under(q, m))
        ensures (tree.Under(q, m) && !tree.Under(x, m)) <==> (tree.Under(q, m) && !tree.Under(p, m))
      {
        ClimbEnd(tree, p, q, x, m);
      }
    }

    /** The whole aggregation: additive flow, link flow, and recorded teleportation. Every module
        ends up with the sums and the border flow of the leaves below it. */
    method AggregateFlowValuesFromLeafToRoot(order: seq<nat>)
      requires Valid() && PostOrder(tree, order)
      modifies this
      ensures Valid()
      ensures forall m :: 0 <= m < |data| && !tree.IsLeaf(m) ==>
                data[m] == BorderData(model, LeafData(old(data), leafNodes), edges, Below(tree, leafNodes, m))
    {
      hide Tree.Under, Tree.SumUnder, PostOrder, Tree.IsLeaf, BorderData, MemberData;
      ghost var nodes := LeafData(data, leafNodes);
      ResetModules();
      ghost var base := data;
      AggregateUp(order);
      ghost var summed := data;
      forall m | 0 <= m < |data| && !tree.IsLeaf(m)
        ensures summed[m] == MemberData(nodes, Below(tree, leafNodes, m), 1).(enterFlow := 0.0, exitFlow := 0.0)
      {
        SummedData(tree, leafNodes, base, nodes, summed[m], m);
      }
      AddLinks();
      AddRecordedTeleportation(nodes, summed);
    }

    /** Aggregate the flow of all links. */
    method AddLinks()
      requires Valid()
      modifies this
      ensures Valid()
      ensures forall m :: 0 <= m < |data| ==>
                data[m] == WithLinksBelow(model.undirected, edges, Below(tree, leafNodes, m), old(data)[m])
    {
      hide Tree.Under, Tree.IsLeaf;
      for k := 0 to |edges|
        invariant Valid() && |data| == |old(data)|
        invariant forall m :: 0 <= m < |data| ==>
                    data[m] == WithLinksBelow(model.undirected, edges[..k], Below(tree, leafNodes, m), old(data)[m])
      {
        assert edges[..k + 1][..k] == edges[..k];
        AddLink(edges[k]);
      }
      assert edges[..|edges|] == edges;
    }

    /** Recorded teleportation between every module and the rest of the network. */
    method AddRecordedTeleportation(ghost nodes: seq<FlowData>, ghost summed: seq<FlowData>)
      requires Valid() && |nodes| == |leafNodes| && |summed| == |data|
      requires forall m :: 0 <= m < |data| && !tree.IsLeaf(m) ==>
                 summed[m] == MemberData(nodes, Below(tree, leafNodes, m), 1).(enterFlow := 0.0, exitFlow := 0.0)
      requires forall m :: 0 <= m < |data| ==>
                 data[m] == WithLinksBelow(model.undirected, edges, Below(tree, leafNodes, m), summed[m])
      modifies this
      ensures Valid()
      ensures forall m :: 0 <= m < |data| && !tree.IsLeaf(m) ==>
                data[m] == BorderData(model, nodes, edges, Below(tree, leafNodes, m))
    {
      hide Tree.Under, Members, OutOf, InTo, MemberData;
      ghost var linked := data;
      if model.recordedTeleportation {
        var total := data[0].teleportFlow;
        for x := 0 to |data|
          invariant Valid() && |data| == |linked|
          invariant forall m :: 0 <= m < |data| ==>
                      data[m] == if m < x && !tree.IsLeaf(m) then WithTeleportBelow(total, linked[m]) else linked[m]
        {
          if !tree.IsLeaf(x) {
            data := data[x := WithTeleportBelow(total, data[x])];
          }
        }
        RootIsModule(tree, leafNodes);
        RootSum(tree, leafNodes, nodes);
      }
    }
  }

  // ----- What a module ends up with -----

  function LeafData(data: seq<FlowData>, leafNodes: seq<nat>): (r: seq<FlowData>)
    requires forall i :: 0 <= i < |leafNodes| ==> leafNodes[i] < |data|
    ensures |r| == |leafNodes| && forall i :: 0 <= i < |r| ==> r[i] == data[leafNodes[i]]
  {
    seq(|leafNodes|, i requires 0 <= i < |leafNodes| => data[leafNodes[i]])
  }

  /** 1 for the leaves below module m. */
  function Below(tree: Tree, leafNodes: seq<nat>, m: nat): (r: seq<nat>)
    requires tree.Valid() && forall i :: 0 <= i < |leafNodes| ==> leafNodes[i] < |tree.parent|
    ensures |r| == |leafNodes|
    ensures forall i :: 0 <= i < |r| ==> r[i] == if tree.Under(tree.parent[leafNodes[i]], m) then 1 else 0
  {
    seq(|leafNodes|, i requires 0 <= i < |leafNodes| => if tree.Under(tree.parent[leafNodes[i]], m) then 1 else 0)
  }

  /** Data with the flow of the links that have one end below. */
  function WithLinksBelow(undirected: bool, links: seq<Edge>, below: seq<nat>, d: FlowData): FlowData
    requires EdgesOk(links, |below|)
  {
    var leaving, entering := OutOf(links, below, 1), InTo(links, below, 1);
    if undirected then d.Shift(leaving / 2.0 + entering / 2.0)
    else d.(exitFlow := d.exitFlow + leaving, enterFlow := d.enterFlow + entering)
  }

  function WithTeleportBelow(total: real, d: FlowData): FlowData
  {
    d.(enterFlow := d.enterFlow + (total - d.teleportFlow) * d.teleportWeight,
       exitFlow := d.exitFlow + d.teleportFlow * (1.0 - d.teleportWeight))
  }

  /** Sums over the leaves below, and the flow across the border around them. */
  function BorderData(model: Model, nodes: seq<FlowData>, edges: seq<Edge>, below: seq<nat>): FlowData
    requires |below| == |nodes| && EdgesOk(edges, |below|)
  {
    var d := WithLinksBelow(model.undirected, edges, below,
                            MemberData(nodes, below, 1).(enterFlow := 0.0, exitFlow := 0.0));
    if model.recordedTeleportation then WithTeleportBelow(Sum(Values(nodes, Teleport)), d) else d
  }

  lemma {:induction false} SummedData(tree: Tree, leafNodes: seq<nat>, base: seq<FlowData>, nodes: seq<FlowData>,
                                      d: FlowData, m: nat)
    requires tree.Valid() && OnLeavesOnly(tree, base) && m < |base| && !tree.IsLeaf(m) && Distinct(leafNodes)
    requires forall i :: 0 <= i < |leafNodes| ==> 0 < leafNodes[i] < |base| && tree.IsLeaf(leafNodes[i])
    requires forall x :: 0 <= x < |base| && tree.IsLeaf(x) ==> x in leafNodes
    requires nodes == LeafData(base, leafNodes)
    requires forall c: Column ::
               d.Get(c) == if Additive(c) then tree.SumUnder(Values(base, c), m) else base[m].Get(c)
    ensures d == MemberData(nodes, Below(tree, leafNodes, m), 1).(enterFlow := 0.0, exitFlow := 0.0)
  {
    forall c: Column | Additive(c)
      ensures d.Get(c) == Members(Values(nodes, c), Below(tree, leafNodes, m), 1)
    {
      LeafSum(tree, leafNodes, Values(base, c), Values(nodes, c), m);
    }
    var e := MemberData(nodes, Below(tree, leafNodes, m), 1);
    assert d.Get(Flow) == e.Get(Flow) && d.Get(Teleport) == e.Get(Teleport) && d.Get(Source) == e.Get(Source)
        && d.Get(Weight) == e.Get(Weight) && d.Get(Dangling) == e.Get(Dangling);
    assert d.Get(Enter) == 0.0 && d.Get(Exit) == 0.0;
  }

  /** The leaf weights under a module, over the tree or over the list of leaves. */
  lemma {:induction false} LeafSum(tree: Tree, leafNodes: seq<nat>, w: seq<real>, v: seq<real>, m: nat)
    requires tree.Valid() && |w| == |tree.parent| && |v| == |leafNodes| && m < |w| && !tree.IsLeaf(m)
    requires Distinct(leafNodes)
    requires forall i :: 0 <= i < |v| ==> 0 < leafNodes[i] < |w| && tree.IsLeaf(leafNodes[i]) && v[i] == w[leafNodes[i]]
    requires forall x :: 0 <= x < |w| && x !in leafNodes ==> w[x] == 0.0
    ensures tree.SumUnder(w, m) == Members(v, Below(tree, leafNodes, m), 1)
  {
    var below, under := Below(tree, leafNodes, m), tree.UnderIndex(m);
    var xs := seq(|w|, x requires 0 <= x < |w| => if under[x] == 1 then w[x] else 0.0);
    var ys := seq(|v|, i requires 0 <= i < |v| => if below[i] == 1 then v[i] else 0.0);
    forall i | 0 <= i < |v| ensures ys[i] == xs[leafNodes[i]] {
      tree.UnderStep(leafNodes[i], m);
    }
    MembersAsSum(w, under, 1, xs);
    MembersAsSum(v, below, 1, ys);
    SumSelect(xs, leafNodes, ys);
  }

  lemma {:induction false} RootIsModule(tree: Tree, leafNodes: seq<nat>)
    requires tree.Valid() && forall i :: 0 <= i < |leafNodes| ==> leafNodes[i] < |tree.parent|
    ensures forall i :: 0 <= i < |leafNodes| ==> Below(tree, leafNodes, 0)[i] == 1
  {
    forall i | 0 <= i < |leafNodes| ensures Below(tree, leafNodes, 0)[i] == 1 {
      tree.UnderRoot(tree.parent[leafNodes[i]]);
    }
  }

  lemma {:induction false} RootSum(tree: Tree, leafNodes: seq<nat>, nodes: seq<FlowData>)
    requires tree.Valid() && forall i :: 0 <= i < |leafNodes| ==> leafNodes[i] < |tree.parent|
    requires |nodes| == |leafNodes|
    ensures MemberData(nodes, Below(tree, leafNodes, 0), 1).teleportFlow == Sum(Values(nodes, Teleport))
  {
    RootIsModule(tree, leafNodes);
    MembersAsSum(Values(nodes, Teleport), Below(tree, leafNodes, 0), 1, Values(nodes, Teleport));
    assert MemberData(nodes, Below(tree, leafNodes, 0), 1).Get(Teleport) == Sum(Values(nodes, Teleport));
  }

  /** No link crosses the border of the root. */
  lemma {:induction false} RootHasNoBorder(tree: Tree, leafNodes: seq<nat>, edges: seq<Edge>)
    requires tree.Valid() && forall i :: 0 <= i < |leafNodes| ==> leafNodes[i] < |tree.parent|
    requires EdgesOk(edges, |leafNodes|)
    ensures OutOf(edges, Below(tree, leafNodes, 0), 1) == 0.0 == InTo(edges, Below(tree, leafNodes, 0), 1)
  {
    RootIsModule(tree, leafNodes);
    if edges != [] { RootHasNoBorder(tree, leafNodes, edges[..|edges| - 1]); }
  }

  lemma {:induction false} AdditivePart(net: Network, below: seq<nat>)
    requires net.Valid() && |below| == |net.nodes|
    ensures var d, e := ModuleData(net, below, 1), MemberData(net.nodes, below, 1);
            d.(enterFlow := 0.0, exitFlow := 0.0) == e.(enterFlow := 0.0, exitFlow := 0.0)
  {
    hide MemberData, Internal, InternalTeleport, EdgesOk;
  }

  /** What undirected clustering with recorded teleportation makes of the exit and the enter flow of a module,
      over what the optimizer keeps: aggregation adds the teleportation of its leaves, which the leaves
      themselves do not have in their exit and enter flow. */
  function ExitExcess(nodes: seq<FlowData>, below: seq<nat>): real
    requires |below| == |nodes|
  {
    MemberData(nodes, below, 1).teleportFlow - Members(SelfTeleports(nodes), below, 1)
  }

  function EnterExcess(nodes: seq<FlowData>, below: seq<nat>): real
    requires |below| == |nodes|
  {
    Sum(Values(nodes, Teleport)) * MemberData(nodes, below, 1).teleportWeight
    - Members(SelfTeleports(nodes), below, 1)
  }

  /** The aggregated data of a module, on a tree of any shape, is what the optimizer keeps for the
      module with the same leaves, unless teleportation is recorded in undirected clustering. Then they
      differ by the excess, and agree exactly where there is none. */
  lemma {:induction false} AggregatedIsModuleData(model: Model, net: Network, below: seq<nat>)
    requires Initialised(model, net.edges, net.nodes) && |below| == |net.nodes|
    requires net.recordedTeleportation == model.recordedTeleportation
    requires !model.undirected ==> Sum(Values(net.nodes, Flow)) == 1.0
    ensures net.Valid()
    ensures var aggregated, kept := BorderData(model, net.nodes, net.edges, below), ModuleData(net, below, 1);
            var exit, enter := ExitExcess(net.nodes, below), EnterExcess(net.nodes, below);
            if model.undirected && model.recordedTeleportation then
              && aggregated == kept.(exitFlow := kept.exitFlow + exit, enterFlow := kept.enterFlow + enter)
              && (aggregated == kept <==> exit == 0.0 && enter == 0.0)
            else aggregated == kept
  {
    hide MemberData, ModuleData, OutOf, InTo, Sum, EdgesOk, Initialised, WithTeleportBelow, InternalTeleport, Members;
    var summed := MemberData(net.nodes, below, 1).(enterFlow := 0.0, exitFlow := 0.0);
    var total := Sum(Values(net.nodes, Teleport));
    if model.undirected {
      UndirectedBorder(model, net, below, 1);
      AdditivePart(net, below);
      if model.recordedTeleportation {
        TeleportBelowIs(total, WithLinksBelow(true, net.edges, below, summed), ModuleData(net, below, 1));
        TeleportInside(net, below, total);
      }
    } else {
      DirectedBorder(model, net, below, 1);
      AdditivePart(net, below);
      TeleportBelowIs(total, WithLinksBelow(false, net.edges, below, summed), ModuleData(net, below, 1));
    }
  }

  /** Teleportation across the border and inside it is all that the members send and receive. */
  lemma {:induction false} TeleportInside(net: Network, below: seq<nat>, total: real)
    requires net.recordedTeleportation && |below| == |net.nodes|
    ensures var d := MemberData(net.nodes, below, 1);
            var t, w, own := d.teleportFlow, d.teleportWeight, Members(SelfTeleports(net.nodes), below, 1);
            && t * (1.0 - w) + InternalTeleport(net, below, 1) == t - own
            && (total - t) * w + InternalTeleport(net, below, 1) == total * w - own
  {
    hide MemberData, Members;
    var d := MemberData(net.nodes, below, 1);
    var t, w := d.teleportFlow, d.teleportWeight;
    assert t * (1.0 - w) == t - t * w;
    assert (total - t) * w == total * w - t * w;
  }

  /** Without teleportation weights, which undirected flow leaves at zero, the enter flow agrees and the exit flow
      is too large by all the teleportation of the leaves below. */
  lemma {:induction false} ExcessWithoutWeights(nodes: seq<FlowData>, below: seq<nat>)
    requires |below| == |nodes| && forall i :: 0 <= i < |nodes| ==> nodes[i].teleportWeight == 0.0
    ensures EnterExcess(nodes, below) == 0.0
    ensures ExitExcess(nodes, below) == MemberData(nodes, below, 1).teleportFlow
  {
    forall i | 0 <= i < |nodes| ensures SelfTeleports(nodes)[i] == 0.0 {
      assert nodes[i].teleportFlow * 0.0 == 0.0;
    }
    MembersZero(SelfTeleports(nodes), below, 1);
    MembersZero(Values(nodes, Weight), below, 1);
    var d := MemberData(nodes, below, 1);
    assert d.Get(Weight) == 0.0;
    hide Members, Sum;
    assert Sum(Values(nodes, Teleport)) * 0.0 == 0.0;
  }

  /** Two nodes with half of the flow each and a link between them. */
  function RecordedPair(alpha: real): Network
  {
    Network([FlowData(0.5, 0.5, 0.5, alpha * 0.5, 0.5, 0.0, 0.0), FlowData(0.5, 0.5, 0.5, 0.5, 0.5, 0.0, 0.5)],
            [Edge(0, 1, 1.0)], true)
  }

  /** Their root has no border, but aggregation lets all teleportation leave it. */
  lemma {:induction false} RecordedPairLeaves(alpha: real)
    requires 0.0 <= alpha <= 1.0
    ensures var model, net := Model(alpha, true, true), RecordedPair(alpha);
            && Initialised(model, net.edges, net.nodes) && Sum(Values(net.nodes, Flow)) == 1.0 && net.Valid()
            && ModuleData(net, [1, 1], 1).exitFlow == 0.0
            && BorderData(model, net.nodes, net.edges, [1, 1]).exitFlow == (1.0 + alpha) / 2.0
  {
    var model, net := Model(alpha, true, true), RecordedPair(alpha);
    var below := [1, 1];
    RecordedPairInitialised(alpha);
    ExcessWithoutWeights(net.nodes, below);
    var t := Values(net.nodes, Teleport);
    assert t[..1][..0] == [] && below[..1][..0] == [];
    assert Members(t[..1], below[..1], 1) == alpha * 0.5;
    assert MemberData(net.nodes, below, 1).Get(Teleport) == Members(t, below, 1);
    AggregatedIsModuleData(model, net, below);
    UndirectedBorder(model, net, below, 1);
    assert net.edges[..0] == [];
    assert OutOf(net.edges, below, 1) == 0.0 && InTo(net.edges, below, 1) == 0.0;
    NothingInside(net, below);
  }

  lemma {:induction false} RecordedPairInitialised(alpha: real)
    ensures var model, net := Model(alpha, true, true), RecordedPair(alpha);
            Initialised(model, net.edges, net.nodes) && Sum(Values(net.nodes, Flow)) == 1.0
  {
    var net := RecordedPair(alpha);
    var flows := Values(net.nodes, Flow);
    assert flows[..1][..0] == [] && Sum(flows[..1]) == 0.5;
    assert net.edges[..0] == [] && net.edges[0].source == 0;
    forall a | 0 <= a < 2
      ensures OutSum(net.edges, a) == (if a == 0 then 1.0 else 0.0)
      ensures InSum(net.edges, a) == (if a == 1 then 1.0 else 0.0)
      ensures IsDangling(net.edges, a) <==> a == 1
    {
    }
  }

  lemma {:induction false} NothingInside(net: Network, below: seq<nat>)
    requires |below| == |net.nodes| && forall i :: 0 <= i < |net.nodes| ==> net.nodes[i].teleportWeight == 0.0
    ensures InternalTeleport(net, below, 1) == 0.0
  {
    forall i | 0 <= i < |net.nodes| ensures SelfTeleports(net.nodes)[i] == 0.0 {
      assert net.nodes[i].teleportFlow * 0.0 == 0.0;
    }
    MembersZero(SelfTeleports(net.nodes), below, 1);
    MembersZero(Values(net.nodes, Weight), below, 1);
    var d := MemberData(net.nodes, below, 1);
    assert d.Get(Weight) == 0.0 && d.teleportFlow * 0.0 == 0.0;
  }

  lemma {:induction false} TeleportBelowIs(total: real, d: FlowData, e: FlowData)
    requires d.teleportFlow == e.teleportFlow && d.teleportWeight == e.teleportWeight
    ensures WithTeleportBelow(total, d)
         == d.(enterFlow := d.enterFlow + (total - e.teleportFlow) * e.teleportWeight,
               exitFlow := d.exitFlow + e.teleportFlow * (1.0 - e.teleportWeight))
  {
    var t, w := e.teleportFlow, e.teleportWeight;
    assert WithTeleportBelow(total, d).enterFlow == d.enterFlow + (total - t) * w;
    assert WithTeleportBelow(total, d).exitFlow == d.exitFlow + t * (1.0 - w);
  }

  lemma {:induction false} MembersAsSum(w: seq<real>, index: seq<nat>, m: nat, masked: seq<real>)
    requires |w| == |index| == |masked|
    requires forall i :: 0 <= i < |w| ==> masked[i] == if index[i] == m then w[i] else 0.0
    ensures Members(w, index, m) == Sum(masked)
  {
    if w != [] {
      var n := |w| - 1;
      MembersAsSum(w[..n], index[..n], m, masked[..n]);
    }
  }
}
