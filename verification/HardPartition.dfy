/** Hard partitions: the leaves of a module are put aside and the module takes their place as a leaf
    of the network; when the search is done every such leaf is replaced with the leaves it stands for. */
module HardPartitions {
  import opened InfoTrees
  import opened TreeSurgery

  // ----- Putting children aside and back -----

  ghost function Collapsed(forest: Forest, n: InfoNode): Forest
    requires n in forest.children
  {
    Forest(forest.children[n := []], forest.aside[n := forest.children[n]])
  }

  ghost function Expanded(forest: Forest, n: InfoNode): Forest
    requires n in forest.aside
  {
    Forest(forest.children[n := forest.aside[n]], forest.aside[n := []])
  }

  /** Only the two ends and the degree of one node change, and its two lists with them. */
  lemma {:induction false} EndsChanged(m: Memory, forest: Forest, n: InfoNode, children: seq<InfoNode>,
                                       aside: seq<InfoNode>, ends: Pointers)
    requires Linked(m, forest) && n in m
    requires ends.parent == m[n].parent && ends.previous == m[n].previous && ends.next == m[n].next
    requires ListOk(m, children, n, ends.firstChild, ends.lastChild) && ends.childDegree == |children|
    requires ListOk(m, aside, n, ends.collapsedFirstChild, ends.collapsedLastChild)
    requires forall c :: c in children ==> c !in aside
    ensures Linked(m[n := ends], Forest(forest.children[n := children], forest.aside[n := aside]))
  {
    hide ListOk, Linked, NodeOk;
    LinkedKeys(m, forest);
    var m', forest' := m[n := ends], Forest(forest.children[n := children], forest.aside[n := aside]);
    assert forall c :: c in m ==> SameLinks(m, m', c);
    forall k | k in m' ensures NodeOk(m', k, forest') {
      if k == n {
        ListParents(m, children, n, ends.firstChild, ends.lastChild);
        ListParents(m, aside, n, ends.collapsedFirstChild, ends.collapsedLastChild);
        ListKept(m, m', children, n, ends.firstChild, ends.lastChild);
        ListKept(m, m', aside, n, ends.collapsedFirstChild, ends.collapsedLastChild);
        NodeFrom(m', n, forest');
      } else {
        LinkedNode(m, forest, k);
        NodeParts(m, forest, k);
        NodeKept(m, m', k, forest, forest');
      }
    }
    LinkedFrom(m', forest');
  }

  method CollapseChildren(n: InfoNode, ghost nodes: set<InfoNode>,
                          ghost forest: Forest) returns (numCollapsedChildren: nat)
    requires Linked(Snapshot(nodes), forest) && n in nodes
    modifies n
    ensures n in forest.children && numCollapsedChildren == |forest.children[n]|
    ensures Linked(Snapshot(nodes), Collapsed(forest, n))
  {
    hide Linked, ListOk, Snapshot, WithFirstChild, WithLastChild, WithCollapsedFirstChild, WithCollapsedLastChild,
         WithDegree;
    ghost var m := Snapshot(nodes);
    NodeParts(m, forest, n);
    SnapshotAt(nodes, n);
    NoList(m, n);
    EndsChanged(m, forest, n, [], forest.children[n],
                m[n].(firstChild := null, lastChild := null, collapsedFirstChild := n.firstChild,
                      collapsedLastChild := n.lastChild, childDegree := 0));
    var first, last := n.firstChild, n.lastChild;
    numCollapsedChildren := n.childDegree;
    // The list put aside before, if any, is let go of
    n.SetCollapsedFirstChild(first, nodes);
    n.SetCollapsedLastChild(last, nodes);
    n.SetFirstChild(null, nodes);
    n.SetLastChild(null, nodes);
    n.SetChildDegree(0, nodes);
    EndsWritten(m, n, null, null, first, last, 0);
  }

  /** Five writes to one node, in the order of the operations. */
  lemma {:induction false} EndsWritten(m: Memory, n: InfoNode, first: InfoNode?, last: InfoNode?,
                                       collapsedFirst: InfoNode?, collapsedLast: InfoNode?, degree: nat)
    requires n in m
    ensures WithDegree(WithLastChild(WithFirstChild(WithCollapsedLastChild(WithCollapsedFirstChild(
              m, n, collapsedFirst), n, collapsedLast), n, first), n, last), n, degree)
         == m[n := m[n].(firstChild := first, lastChild := last, collapsedFirstChild := collapsedFirst,
                         collapsedLastChild := collapsedLast, childDegree := degree)]
  {
  }

  datatype ExpandResult = NumExpanded(count: nat) | HasChildren

  /** Put the list aside back in its place, and count it again. A node that has children already is
      an error. */
  method ExpandChildren(n: InfoNode, ghost nodes: set<InfoNode>, ghost forest: Forest) returns (result: ExpandResult)
    requires Linked(Snapshot(nodes), forest) && n in nodes
    modifies n
    ensures n in forest.children && n in forest.aside
    ensures result.HasChildren? <==> forest.aside[n] != [] && forest.children[n] != []
    ensures result.NumExpanded? ==> result.count == |forest.aside[n]|
    ensures result.NumExpanded? && forest.aside[n] != [] ==> Linked(Snapshot(nodes), Expanded(forest, n))
    ensures result.HasChildren? || forest.aside[n] == [] ==> Snapshot(nodes) == old(Snapshot(nodes))
    ensures n.parent == old(n.parent)
  {
    hide Linked, ListOk, Snapshot, WithFirstChild, WithLastChild, WithCollapsedFirstChild, WithCollapsedLastChild,
         WithDegree;
    ghost var m := Snapshot(nodes);
    NodeParts(m, forest, n);
    SnapshotAt(nodes, n);
    ListEnds(m, forest.children[n], n, n.firstChild, n.lastChild);
    ListEnds(m, forest.aside[n], n, n.collapsedFirstChild, n.collapsedLastChild);
    var haveCollapsedChildren := n.collapsedFirstChild != null;
    if !haveCollapsedChildren {
      return NumExpanded(0);
    }
    if n.firstChild != null || n.lastChild != null {
      LastOfNone(m, forest.children[n], n, n.firstChild, n.lastChild);
      return HasChildren;
    }
    NoList(m, n);
    var first, last := n.collapsedFirstChild, n.collapsedLastChild;
    n.SetCollapsedFirstChild(null, nodes);
    n.SetCollapsedLastChild(null, nodes);
    n.SetFirstChild(first, nodes);
    n.SetLastChild(last, nodes);
    SameNext(m, Snapshot(nodes), n, first, last);
    var degree := CalcChildDegree(n, nodes, m, Snapshot(nodes), forest.aside[n]);
    EndsChanged(m, forest, n, forest.aside[n], [],
        m[n].(firstChild := first, lastChild := last, collapsedFirstChild := null,
                                                         collapsedLastChild := null, childDegree := degree));
    n.SetChildDegree(degree, nodes);
    EndsWritten(m, n, first, last, null, null, degree);
    return NumExpanded(degree);
  }

  lemma {:induction false} SameNext(m: Memory, m1: Memory, n: InfoNode, first: InfoNode?, last: InfoNode?)
    requires n in m
    requires m1 == WithLastChild(WithFirstChild(WithCollapsedLastChild(WithCollapsedFirstChild(m, n, null), n, null),
              n, first), n, last)
    ensures m1.Keys == m.Keys && forall k :: k in m ==> m1[k].next == m[k].next
  {
  }

  lemma {:induction false} LastOfNone(m: Memory, xs: seq<InfoNode>, owner: InfoNode, first: InfoNode?, last: InfoNode?)
    requires ListOk(m, xs, owner, first, last)
    ensures xs == [] <==> last == null
  {
  }

  /** Walk along the children to count them. */
  method CalcChildDegree(n: InfoNode, ghost nodes: set<InfoNode>, ghost m: Memory, ghost m1: Memory,
                         ghost xs: seq<InfoNode>)
    returns (childDegree: nat)
    requires n in nodes && m1 == Snapshot(nodes) && m.Keys == nodes
    requires ListOk(m, xs, n, n.firstChild, n.lastChild)
    requires forall k :: k in m ==> m1[k].next == m[k].next
    ensures childDegree == |xs|
  {
    hide ListOk, Snapshot;
    ListEnds(m, xs, n, n.firstChild, n.lastChild);
    if n.firstChild == null {
      return 0;
    }
    if n.firstChild == n.lastChild {
      ListMember(m, xs, n, n.firstChild, n.lastChild, 0);
      return 1;
    }
    childDegree := 0;
    var child := n.firstChild;
    while child != null
      invariant childDegree <= |xs|
      invariant child == if childDegree < |xs| then xs[childDegree] else null
      decreases |xs| - childDegree
    {
      ListMember(m, xs, n, n.firstChild, n.lastChild, childDegree);
      SnapshotAt(nodes, child);
      child := child.next;
      childDegree := childDegree + 1;
    }
  }

  // ----- What restoring means -----

  /** What stands in the place of a child once the leaves in done have been restored. */
  ghost function InPlace(forest: Forest, c: Tree, done: set<InfoNode>): seq<InfoNode>
  {
    if c.IsLeaf() && c.node in done && c.node in forest.aside && forest.aside[c.node] != [] then forest.aside[c.node]
    else [c.node]
  }

  ghost function RestoredList(forest: Forest, trees: seq<Tree>, done: set<InfoNode>): seq<InfoNode>
  {
    if trees == [] then []
    else RestoredList(forest, trees[..|trees| - 1], done) + InPlace(forest, trees[|trees| - 1], done)
  }

  ghost predicate SubtreeOf(older s: Tree, t: Tree)
  {
    s == t || exists c :: c in t.children && SubtreeOf(s, c)
  }

  ghost predicate IsModule(t: Tree, n: InfoNode)
  {
    exists s :: SubtreeOf(s, t) && s.node == n && !s.IsLeaf()
  }

  /** The leaves that go because something was put aside under them. */
  ghost function Gone(forest: Forest, done: set<InfoNode>): set<InfoNode>
  {
    set l | l in done && l in forest.aside && forest.aside[l] != []
  }

  /** The forest with some leaves restored: every module has its list with those leaves replaced, and
      no other list has changed. */
  ghost predicate Midway(forest: Forest, forest': Forest, t: Tree, done: set<InfoNode>)
  {
    && forest'.children.Keys == forest.children.Keys - Gone(forest, done)
    && forest'.aside == forest.aside - Gone(forest, done)
    && (forall s :: SubtreeOf(s, t) && !s.IsLeaf() ==>
          s.node in forest'.children && forest'.children[s.node] == RestoredList(forest, s.children, done))
    && (forall n :: n in forest'.children && !IsModule(t, n) ==>
          n in forest.children && forest'.children[n] == forest.children[n])
  }

  lemma {:induction false} RestoredNothing(forest: Forest, trees: seq<Tree>)
    ensures RestoredList(forest, trees, {}) == Roots(trees)
  {
    if trees != [] {
      var n := |trees| - 1;
      RestoredNothing(forest, trees[..n]);
      assert Roots(trees) == Roots(trees[..n]) + [trees[n].node];
    }
  }

  lemma {:induction false} SubtreeShown(forest: Forest, s: Tree, t: Tree)
    requires Shows(forest, t) && SubtreeOf(s, t)
    ensures Shows(forest, s)
  {
    if s != t {
      var c :| c in t.children && SubtreeOf(s, c);
      SubtreeShown(forest, s, c);
    }
  }

  lemma {:induction false} ShownOnce(forest: Forest, a: Tree, b: Tree)
    requires Shows(forest, a) && Shows(forest, b) && a.node == b.node
    ensures a == b
  {
    assert Roots(a.children) == Roots(b.children);
    forall i | 0 <= i < |a.children| ensures a.children[i] == b.children[i] {
      assert a.children[i] in a.children && b.children[i] in b.children;
      assert Roots(a.children)[i] == Roots(b.children)[i];
      ShownOnce(forest, a.children[i], b.children[i]);
    }
  }

  lemma {:induction false} MidwayStart(forest: Forest, t: Tree)
    requires Shows(forest, t)
    ensures Midway(forest, forest, t, {})
  {
    assert Gone(forest, {}) == {};
    forall s | SubtreeOf(s, t) && !s.IsLeaf()
      ensures s.node in forest.children && forest.children[s.node] == RestoredList(forest, s.children, {})
    {
      SubtreeShown(forest, s, t);
      RestoredNothing(forest, s.children);
    }
  }

  /** A leaf that is not done is where it was, and its place is found by what stands before it. */
  lemma {:induction false} RestoredAt(forest: Forest, trees: seq<Tree>, done: set<InfoNode>, k: nat)
    requires k < |trees| && trees[k].IsLeaf() && trees[k].node !in done
    ensures var i := |RestoredList(forest, trees[..k], done)|;
            i < |RestoredList(forest, trees, done)| && RestoredList(forest, trees, done)[i] == trees[k].node
  {
    var n := |trees| - 1;
    if k < n {
      RestoredAt(forest, trees[..n], done, k);
      assert trees[..n][..k] == trees[..k];
    }
  }

  /** Restoring one more leaf splices what it stands for into the one list it is in. */
  lemma {:induction false} RestoredMore(forest: Forest, trees: seq<Tree>, done: set<InfoNode>, k: nat)
    requires k < |trees| && trees[k].IsLeaf() && trees[k].node !in done
    requires trees[k].node in forest.aside && forest.aside[trees[k].node] != []
    requires forall j :: 0 <= j < |trees| && j != k ==> trees[j].node != trees[k].node
    ensures var i := |RestoredList(forest, trees[..k], done)|;
            && i < |RestoredList(forest, trees, done)|
            && RestoredList(forest, trees, done + {trees[k].node})
               == Spliced(RestoredList(forest, trees, done), i, forest.aside[trees[k].node])
  {
    hide Spliced, InPlace;
    var n, l := |trees| - 1, trees[k].node;
    var before, last := RestoredList(forest, trees[..n], done), InPlace(forest, trees[n], done);
    RestoredAt(forest, trees, done, k);
    if k < n {
      RestoredMore(forest, trees[..n], done, k);
      assert trees[..n][..k] == trees[..k];
      InPlaceKept(forest, trees[n], done, l);
      SplicedInFront(before, last, |RestoredList(forest, trees[..k], done)|, forest.aside[l]);
    } else {
      RestoredUnchanged(forest, trees[..n], done, l);
      InPlaceOf(forest, trees[n], done);
      SplicedLast(before, l, forest.aside[l]);
    }
  }

  lemma {:induction false} InPlaceKept(forest: Forest, c: Tree, done: set<InfoNode>, l: InfoNode)
    requires c.node != l
    ensures InPlace(forest, c, done + {l}) == InPlace(forest, c, done)
  {
  }

  lemma {:induction false} InPlaceOf(forest: Forest, c: Tree, done: set<InfoNode>)
    requires c.IsLeaf() && c.node !in done && c.node in forest.aside && forest.aside[c.node] != []
    ensures InPlace(forest, c, done) == [c.node] && InPlace(forest, c, done + {c.node}) == forest.aside[c.node]
  {
  }

  lemma {:induction false} SplicedInFront(a: seq<InfoNode>, b: seq<InfoNode>, i: nat, kids: seq<InfoNode>)
    requires i < |a|
    ensures Spliced(a + b, i, kids) == Spliced(a, i, kids) + b
  {
  }

  lemma {:induction false} SplicedLast(a: seq<InfoNode>, x: InfoNode, kids: seq<InfoNode>)
    ensures Spliced(a + [x], |a|, kids) == a + kids
  {
  }

  /** A list without the leaf does not change. */
  lemma {:induction false} RestoredUnchanged(forest: Forest, trees: seq<Tree>, done: set<InfoNode>, l: InfoNode)
    requires forall j :: 0 <= j < |trees| ==> trees[j].node != l
    ensures RestoredList(forest, trees, done + {l}) == RestoredList(forest, trees, done)
  {
    if trees != [] { RestoredUnchanged(forest, trees[..|trees| - 1], done, l); }
  }

  /** Where a leaf hangs in the tree. */
  lemma {:induction false} LeafPlace(t: Tree, l: InfoNode) returns (s: Tree, k: nat)
    requires !t.IsLeaf() && l in Leaves(t)
    ensures SubtreeOf(s, t) && !s.IsLeaf() && k < |s.children| && s.children[k].IsLeaf() && s.children[k].node == l
    decreases t, 1
  {
    assert t.children[..|t.children|] == t.children;
    s, k := LeafPlaceAmong(t, |t.children|, l);
  }

  lemma {:induction false} LeafPlaceAmong(t: Tree, n: nat, l: InfoNode) returns (s: Tree, k: nat)
    requires n <= |t.children| && l in LeavesAll(t.children[..n])
    ensures SubtreeOf(s, t) && !s.IsLeaf() && k < |s.children| && s.children[k].IsLeaf() && s.children[k].node == l
    decreases t, 0, n
  {
    var c := t.children[n - 1];
    assert t.children[..n][..n - 1] == t.children[..n - 1];
    if l in Leaves(c) {
      if c.IsLeaf() {
        s, k := t, n - 1;
      } else {
        s, k := LeafPlace(c, l);
        assert c in t.children && SubtreeOf(s, c);
      }
    } else {
      s, k := LeafPlaceAmong(t, n - 1, l);
    }
  }

  /** The place of a leaf that is not done. */
  ghost predicate PlaceOk(forest: Forest, t: Tree, done: set<InfoNode>, s: Tree, k: nat)
  {
    && SubtreeOf(s, t) && !s.IsLeaf() && k < |s.children| && s.children[k].IsLeaf()
    && s.children[k].node !in done && s.children[k].node in forest.aside
  }

  lemma {:induction false} PlaceFacts(forest: Forest, forest': Forest, t: Tree, done: set<InfoNode>, s: Tree, k: nat)
    requires Shows(forest, t) && Midway(forest, forest', t, done) && PlaceOk(forest, t, done, s, k)
    ensures var l, i := s.children[k].node, |RestoredList(forest, s.children[..k], done)|;
            && s.node in forest'.children && s.node != l && i < |forest'.children[s.node]|
               && forest'.children[s.node][i] == l
            && l in forest'.children && l in forest'.aside && forest'.children[l] == []
               && forest'.aside[l] == forest.aside[l]
            && Shows(forest, s) && Shows(forest, s.children[k]) && IsModule(t, s.node) && !IsModule(t, l)
            && forest'.children[s.node] == RestoredList(forest, s.children, done)
  {
    hide RestoredList;
    var l := s.children[k].node;
    SubtreeShown(forest, s, t);
    assert s.children[k] in s.children && Shows(forest, s.children[k]);
    RestoredAt(forest, s.children, done, k);
    assert l !in Gone(forest, done);
    LeafIsNoModule(forest, t, s.children[k]);
    assert |forest.children[l]| == 0;
  }

  /** A leaf hangs in one module only. */
  lemma {:induction false} OnePlace(m: Memory, forest: Forest, forest': Forest, t: Tree, done: set<InfoNode>, s: Tree,
                                    k: nat, s': Tree)
    requires Shows(forest, t) && Midway(forest, forest', t, done) && Linked(m, forest')
              && PlaceOk(forest, t, done, s, k)
    requires SubtreeOf(s', t) && !s'.IsLeaf() && s'.node != s.node
    ensures forall j :: 0 <= j < |s'.children| ==> s'.children[j].node != s.children[k].node
  {
    hide RestoredList, Linked, ListOk;
    var l := s.children[k].node;
    PlaceFacts(forest, forest', t, done, s, k);
    LinkedKeys(m, forest');
    NodeParts(m, forest', s.node);
    assert m[l].parent == s.node;
    forall j | 0 <= j < |s'.children| ensures s'.children[j].node != l {
      if s'.children[j].node == l {
        SubtreeShown(forest, s', t);
        assert s'.children[j] in s'.children && Shows(forest, s'.children[j]);
        ShownOnce(forest, s'.children[j], s.children[k]);
        RestoredAt(forest, s'.children, done, j);
        NodeParts(m, forest', s'.node);
        assert false;
      }
    }
  }

  /** One leaf restored. */
  lemma {:induction false} MidwayStep(m: Memory, forest: Forest, forest': Forest, t: Tree, done: set<InfoNode>,
                                      s: Tree, k: nat)
    requires Shows(forest, t) && Midway(forest, forest', t, done) && Linked(m, forest')
              && PlaceOk(forest, t, done, s, k)
    requires forest.aside[s.children[k].node] != []
    requires forall j :: 0 <= j < |s.children| && j != k ==> s.children[j].node != s.children[k].node
    ensures var l, i := s.children[k].node, |RestoredList(forest, s.children[..k], done)|;
            && s.node in forest'.children && s.node != l && i < |forest'.children[s.node]|
               && forest'.children[s.node][i] == l
            && l in forest'.children && l in forest'.aside
            && Midway(forest, WithoutNode(Expanded(forest', l), s.node, i), t, done + {l})
  {
    hide RestoredList, Linked, ListOk, Shows, IsModule, PlaceOk, Spliced;
    PlaceFacts(forest, forest', t, done, s, k);
    PlaceParts(forest, t, done, s, k);
    var l, i, p, done' := s.children[k].node, |RestoredList(forest, s.children[..k], done)|, s.node, done
        + {s.children[k].node};
    RestoredMore(forest, s.children, done, k);
    var after := WithoutNode(Expanded(forest', l), p, i);
    GoneMore(forest, done, l);
    assert after.aside == forest.aside - Gone(forest, done');
    forall s' | SubtreeOf(s', t) && !s'.IsLeaf()
      ensures s'.node in after.children && after.children[s'.node] == RestoredList(forest, s'.children, done')
    {
      if s'.node == p {
        SubtreeShown(forest, s', t);
        ShownOnce(forest, s', s);
      } else {
        OnePlace(m, forest, forest', t, done, s, k, s');
        RestoredUnchanged(forest, s'.children, done, l);
        ModuleOf(t, s');
      }
    }
  }

  lemma {:induction false} PlaceParts(forest: Forest, t: Tree, done: set<InfoNode>, s: Tree, k: nat)
    requires PlaceOk(forest, t, done, s, k)
    ensures SubtreeOf(s, t) && !s.IsLeaf() && k < |s.children| && s.children[k].IsLeaf()
    ensures s.children[k].node !in done && s.children[k].node in forest.aside
  {
  }

  lemma {:induction false} GoneMore(forest: Forest, done: set<InfoNode>, l: InfoNode)
    requires l in forest.aside && forest.aside[l] != []
    ensures Gone(forest, done + {l}) == Gone(forest, done) + {l}
  {
  }

  lemma {:induction false} ModuleOf(t: Tree, s: Tree)
    requires SubtreeOf(s, t) && !s.IsLeaf()
    ensures IsModule(t, s.node)
  {
  }

  lemma {:induction false} LeafIsNoModule(forest: Forest, t: Tree, c: Tree)
    requires Shows(forest, t) && Shows(forest, c) && c.IsLeaf()
    ensures !IsModule(t, c.node)
  {
    if IsModule(t, c.node) {
      var s :| SubtreeOf(s, t) && s.node == c.node && !s.IsLeaf();
      SubtreeShown(forest, s, t);
      ShownOnce(forest, s, c);
      assert false;
    }
  }

  /** A leaf with nothing put aside stays. */
  lemma {:induction false} MidwaySkip(forest: Forest, forest': Forest, t: Tree, done: set<InfoNode>, l: InfoNode)
    requires Midway(forest, forest', t, done) && (l in forest.aside ==> forest.aside[l] == [])
    ensures Midway(forest, forest', t, done + {l})
  {
    hide IsModule, RestoredList;
    assert Gone(forest, done + {l}) == Gone(forest, done);
    forall s | SubtreeOf(s, t) && !s.IsLeaf()
      ensures RestoredList(forest, s.children, done + {l}) == RestoredList(forest, s.children, done)
    {
      RestoredSame(forest, s.children, done, l);
    }
  }

  lemma {:induction false} RestoredSame(forest: Forest, trees: seq<Tree>, done: set<InfoNode>, l: InfoNode)
    requires l in forest.aside ==> forest.aside[l] == []
    ensures RestoredList(forest, trees, done + {l}) == RestoredList(forest, trees, done)
  {
    if trees != [] { RestoredSame(forest, trees[..|trees| - 1], done, l); }
  }

  lemma {:induction false} LeavesWithin(t: Tree)
    ensures forall l :: l in Leaves(t) ==> l in NodesOf(t)
    decreases t
  {
    LeavesWithinAll(t.children);
  }

  lemma {:induction false} LeavesWithinAll(trees: seq<Tree>)
    ensures forall l :: l in LeavesAll(trees) ==> l in NodesOfAll(trees)
    decreases trees
  {
    if trees != [] {
      LeavesWithinAll(trees[..|trees| - 1]);
      LeavesWithin(trees[|trees| - 1]);
    }
  }

  lemma {:induction false} LeavesDistinct(t: Tree)
    requires Distinct(t)
    ensures NoDuplicates(Leaves(t))
    decreases t
  {
    LeavesDistinctAll(t.children);
  }

  lemma {:induction false} LeavesDistinctAll(trees: seq<Tree>)
    requires DistinctAll(trees)
    ensures NoDuplicates(LeavesAll(trees))
    decreases trees
  {
    if trees != [] {
      var n := |trees| - 1;
      LeavesDistinctAll(trees[..n]);
      LeavesDistinct(trees[n]);
      LeavesWithinAll(trees[..n]);
      LeavesWithin(trees[n]);
      JoinedDistinct(LeavesAll(trees[..n]), Leaves(trees[n]));
    }
  }

  lemma {:induction false} JoinedDistinct(a: seq<InfoNode>, b: seq<InfoNode>)
    requires NoDuplicates(a) && NoDuplicates(b) && forall x :: x in a ==> x !in b
    ensures NoDuplicates(a + b)
  {
    forall i, j | 0 <= i < j < |a + b| ensures (a + b)[i] != (a + b)[j] {
      if i < |a| <= j { assert a[i] in a && b[j - |a|] in b; }
    }
  }

  ghost function Listed(xs: seq<InfoNode>): set<InfoNode>
  {
    set x | x in xs
  }

  /** Number of nodes put aside under the given leaves. */
  ghost function NumAside(forest: Forest, leaves: seq<InfoNode>): nat
  {
    if leaves == [] then 0
    else
      var l := leaves[|leaves| - 1];
      NumAside(forest, leaves[..|leaves| - 1]) + (if l in forest.aside then |forest.aside[l]| else 0)
  }

  /** What the next leaf finds, and leaves behind. */
  lemma {:induction false} NextLeaf(m: Memory, forest: Forest, forest': Forest, t: Tree, leafNodes: seq<InfoNode>,
                                    j: nat)
    returns (p: InfoNode, i: nat)
    requires Linked(m, forest') && Shows(forest, t) && Distinct(t) && !t.IsLeaf() && leafNodes == Leaves(t)
              && j < |leafNodes|
    requires Midway(forest, forest', t, Listed(leafNodes[..j]))
    ensures var l := leafNodes[j];
            && l in m && l in forest.aside && l in forest'.children && l in forest'.aside
            && forest'.children[l] == [] && forest'.aside[l] == forest.aside[l]
            && p in m && p in forest'.children && p != l && m[l].parent == p
            && i < |forest'.children[p]| && forest'.children[p][i] == l
            && (forest.aside[l] == [] ==> Midway(forest, forest', t, Listed(leafNodes[..j + 1])))
            && (forest.aside[l] != [] ==>
                  Midway(forest, WithoutNode(Expanded(forest', l), p, i), t, Listed(leafNodes[..j + 1])))
            && Gone(forest, Listed(leafNodes[..j + 1]))
               == Gone(forest, Listed(leafNodes[..j])) + (if forest.aside[l] == [] then {} else {l})
            && NumAside(forest, leafNodes[..j + 1]) == NumAside(forest, leafNodes[..j]) + |forest.aside[l]|
  {
    hide Linked, Midway, RestoredList, ListOk, WithoutNode, Distinct, SubtreeOf, Leaves;
    var l, done := leafNodes[j], Listed(leafNodes[..j]);
    assert l in Leaves(t);
    var s, k := LeafPlace(t, l);
    p, i := s.node, |RestoredList(forest, s.children[..k], done)|;
    LeavesDistinct(t);
    NotListed(leafNodes, j);
    SubtreeShown(forest, s, t);
    assert s.children[k] in s.children && Shows(forest, s.children[k]);
    PlaceFacts(forest, forest', t, done, s, k);
    LinkedKeys(m, forest');
    NodeParts(m, forest', p);
    if forest.aside[l] == [] {
      MidwaySkip(forest, forest', t, done, l);
    } else {
      SiblingsDistinct(t, s, k);
      MidwayStep(m, forest, forest', t, done, s, k);
    }
    assert leafNodes[..j + 1][..j] == leafNodes[..j];
  }

  lemma {:induction false} NotListed(xs: seq<InfoNode>, j: nat)
    requires NoDuplicates(xs) && j < |xs|
    ensures xs[j] !in Listed(xs[..j]) && Listed(xs[..j + 1]) == Listed(xs[..j]) + {xs[j]}
  {
    assert xs[..j + 1] == xs[..j] + [xs[j]];
  }

  lemma {:induction false} SiblingsDistinct(t: Tree, s: Tree, k: nat)
    requires Distinct(t) && SubtreeOf(s, t) && k < |s.children|
    ensures forall j :: 0 <= j < |s.children| && j != k ==> s.children[j].node != s.children[k].node
  {
    SubtreeDistinct(s, t);
    RootsDistinct(s.children);
  }

  lemma {:induction false} SubtreeDistinct(s: Tree, t: Tree)
    requires Distinct(t) && SubtreeOf(s, t)
    ensures Distinct(s)
  {
    if s != t {
      var c :| c in t.children && SubtreeOf(s, c);
      var i :| 0 <= i < |t.children| && t.children[i] == c;
      ChildDistinct(t.children, i);
      SubtreeDistinct(s, c);
    }
  }

  lemma {:induction false} ChildDistinct(trees: seq<Tree>, i: nat)
    requires DistinctAll(trees) && i < |trees|
    ensures Distinct(trees[i])
  {
    if i < |trees| - 1 { ChildDistinct(trees[..|trees| - 1], i); }
  }

  lemma {:induction false} RootsDistinct(trees: seq<Tree>)
    requires DistinctAll(trees)
    ensures forall i, j :: 0 <= i < j < |trees| ==> trees[i].node != trees[j].node
  {
    if trees != [] {
      var n := |trees| - 1;
      RootsDistinct(trees[..n]);
      forall i | 0 <= i < n ensures trees[i].node != trees[n].node {
        NodesIncludes(trees[..n], i);
      }
    }
  }

  /** Expand every leaf of the tree, in the order the tree iteration lists them, and put what it held in
      its place. No leaf is ever found with children of its own. */
  method RestoreHardPartition(leafNodes: seq<InfoNode>, ghost nodes: set<InfoNode>, ghost forest: Forest, ghost t: Tree)
    returns (numExpandedNodes: nat, numExpandedChildren: nat, ghost nodes': set<InfoNode>, ghost forest': Forest)
    requires Linked(Snapshot(nodes), forest) && Shows(forest, t) && Distinct(t) && !t.IsLeaf() && leafNodes == Leaves(t)
    requires AsideAreLeaves(forest, Listed(leafNodes))
    modifies nodes
    ensures Linked(Snapshot(nodes'), forest') && nodes' == nodes - Gone(forest, Listed(leafNodes))
    ensures Shows(forest', RestoredTree(forest, t))
    ensures Leaves(RestoredTree(forest, t)) == Originals(forest, leafNodes)
              && NoDuplicates(Originals(forest, leafNodes))
    ensures numExpandedNodes == |leafNodes| && numExpandedChildren == NumAside(forest, leafNodes)
  {
    hide Linked, Snapshot, Shows, Distinct, Midway, Leaves, WithoutNode, Gone, Listed, NumAside;
    ghost var m := Snapshot(nodes);
    nodes', forest', numExpandedNodes, numExpandedChildren := nodes, forest, 0, 0;
    MidwayStart(forest, t);
    NoneListed(forest, leafNodes);
    for j := 0 to |leafNodes|
      invariant nodes' == nodes - Gone(forest, Listed(leafNodes[..j])) && Linked(Snapshot(nodes'), forest')
      invariant Midway(forest, forest', t, Listed(leafNodes[..j]))
      invariant numExpandedNodes == j && numExpandedChildren == NumAside(forest, leafNodes[..j])
    {
      var node := leafNodes[j];
      ghost var p, i := NextLeaf(Snapshot(nodes'), forest, forest', t, leafNodes, j);
      SnapshotAt(nodes', node);
      var expanded := ExpandChildren(node, nodes', forest');
      if expanded.HasChildren? {
        assert false;
      }
      numExpandedNodes := numExpandedNodes + 1;
      numExpandedChildren := numExpandedChildren + expanded.count;
      if forest.aside[node] != [] {
        forest' := Expanded(forest', node);
      }
      var replaced := ReplaceWithChildren(node, nodes', forest', i);
      if replaced == 1 {
        nodes', forest' := nodes' - {node}, WithoutNode(forest', p, i);
      }
    }
    assert leafNodes[..|leafNodes|] == leafNodes;
    RestoredMeans(m, forest, forest', t);
  }

  /** All leaves restored: the tree, its leaves, and that none comes back twice. */
  lemma {:induction false} RestoredMeans(m: Memory, forest: Forest, forest': Forest, t: Tree)
    requires Linked(m, forest) && Shows(forest, t) && Distinct(t) && !t.IsLeaf()
    requires AsideAreLeaves(forest, Listed(Leaves(t))) && Midway(forest, forest', t, Listed(Leaves(t)))
    ensures Shows(forest', RestoredTree(forest, t))
    ensures Leaves(RestoredTree(forest, t)) == Originals(forest, Leaves(t))
              && NoDuplicates(Originals(forest, Leaves(t)))
  {
    hide Linked, Midway, Shows, Distinct;
    RestoredShown(forest, forest', t, Listed(Leaves(t)), t);
    RestoredLeaves(forest, t);
    LeavesDistinct(t);
    LeavesWithin(t);
    ShownNodes(forest, t);
    LinkedKeys(m, forest);
    OriginalsOnce(m, forest, Leaves(t));
  }

  lemma {:induction false} NoneListed(forest: Forest, leafNodes: seq<InfoNode>)
    ensures Listed(leafNodes[..0]) == {} && Gone(forest, {}) == {} && NumAside(forest, leafNodes[..0]) == 0
  {
  }

  // ----- The restored tree -----

  /** What the leaves stand for: the nodes put aside under them, or themselves. */
  ghost function Originals(forest: Forest, leaves: seq<InfoNode>): seq<InfoNode>
  {
    if leaves == [] then []
    else
      var l := leaves[|leaves| - 1];
      Originals(forest, leaves[..|leaves| - 1])
      + (if l in forest.aside && forest.aside[l] != [] then forest.aside[l] else [l])
  }

  ghost function LeafTrees(leaves: seq<InfoNode>): (r: seq<Tree>)
    ensures |r| == |leaves| && forall i :: 0 <= i < |r| ==> r[i] == Tree(leaves[i], [])
  {
    seq(|leaves|, i requires 0 <= i < |leaves| => Tree(leaves[i], []))
  }

  ghost function RestoredLeaf(forest: Forest, c: Tree): seq<Tree>
  {
    if c.node in forest.aside && forest.aside[c.node] != [] then LeafTrees(forest.aside[c.node]) else [c]
  }

  /** The tree with every leaf replaced, under the same parent, with what it stands for. */
  ghost function RestoredTree(forest: Forest, t: Tree): (r: Tree)
    ensures r.node == t.node
    decreases t
  {
    Tree(t.node, RestoredTrees(forest, t.children))
  }

  ghost function RestoredTrees(forest: Forest, trees: seq<Tree>): seq<Tree>
    decreases trees
  {
    if trees == [] then []
    else
      var c := trees[|trees| - 1];
      RestoredTrees(forest, trees[..|trees| - 1])
      + (if c.IsLeaf() then RestoredLeaf(forest, c) else [RestoredTree(forest, c)])
  }

  lemma {:induction false} LeafTreesLeaves(leaves: seq<InfoNode>)
    ensures LeavesAll(LeafTrees(leaves)) == leaves
  {
    if leaves != [] {
      var n := |leaves| - 1;
      LeafTreesLeaves(leaves[..n]);
      assert LeafTrees(leaves)[..n] == LeafTrees(leaves[..n]);
    }
  }

  lemma {:induction false} OriginalsAppend(forest: Forest, a: seq<InfoNode>, b: seq<InfoNode>)
    ensures Originals(forest, a + b) == Originals(forest, a) + Originals(forest, b)
  {
    if b == [] {
      assert a + b == a;
    } else {
      var n := |b| - 1;
      assert (a + b)[..|a + b| - 1] == a + b[..n];
      OriginalsAppend(forest, a, b[..n]);
    }
  }

  lemma {:induction false} RestoredNotEmpty(forest: Forest, trees: seq<Tree>)
    ensures trees != [] ==> RestoredTrees(forest, trees) != []
  {
  }

  /** The leaves of the restored tree are exactly what the leaves stood for, in order. */
  lemma {:induction false} RestoredLeaves(forest: Forest, t: Tree)
    requires !t.IsLeaf()
    ensures Leaves(RestoredTree(forest, t)) == Originals(forest, Leaves(t))
    decreases t
  {
    RestoredLeavesAll(forest, t.children);
    RestoredNotEmpty(forest, t.children);
  }

  lemma {:induction false} RestoredLeavesAll(forest: Forest, trees: seq<Tree>)
    ensures LeavesAll(RestoredTrees(forest, trees)) == Originals(forest, LeavesAll(trees))
    decreases trees
  {
    if trees != [] {
      var n := |trees| - 1;
      var c, rest := trees[n], RestoredTrees(forest, trees[..n]);
      var part := if c.IsLeaf() then RestoredLeaf(forest, c) else [RestoredTree(forest, c)];
      RestoredLeavesAll(forest, trees[..n]);
      OriginalsAppend(forest, LeavesAll(trees[..n]), Leaves(c));
      LeavesAppend(rest, part);
      hide Originals, LeafTrees, RestoredLeaf;
      if c.IsLeaf() {
        LeafRestored(forest, c);
      } else {
        RestoredLeaves(forest, c);
        LeavesOfOne(RestoredTree(forest, c));
      }
      assert RestoredTrees(forest, trees) == rest + part;
    }
  }

  lemma {:induction false} LeavesOfOne(t: Tree)
    ensures LeavesAll([t]) == Leaves(t)
  {
    assert [t][..0] == [];
  }

  /** A leaf is replaced with what it stands for. */
  lemma {:induction false} LeafRestored(forest: Forest, c: Tree)
    requires c.IsLeaf()
    ensures LeavesAll(RestoredLeaf(forest, c)) == Originals(forest, Leaves(c))
  {
    hide LeafTrees, LeavesAll;
    OriginalsOfOne(forest, c.node);
    if c.node in forest.aside && forest.aside[c.node] != [] {
      LeafTreesLeaves(forest.aside[c.node]);
    } else {
      LeavesOfOne(c);
    }
  }

  lemma {:induction false} OriginalsOfOne(forest: Forest, l: InfoNode)
    ensures Originals(forest, [l]) == if l in forest.aside && forest.aside[l] != [] then forest.aside[l] else [l]
  {
    assert [l][..0] == [];
    assert Originals(forest, []) == [];
  }

  /** What was put aside are leaves of the original network. */
  ghost predicate AsideAreLeaves(forest: Forest, leaves: set<InfoNode>)
  {
    forall l, e :: l in leaves && l in forest.aside && e in forest.aside[l] ==>
      e !in leaves && e in forest.children && e in forest.aside && forest.children[e] == []
  }

  lemma {:induction false} RestoredRoots(forest: Forest, trees: seq<Tree>, done: set<InfoNode>)
    requires forall c :: c in trees && c.IsLeaf() ==> c.node in done
    ensures Roots(RestoredTrees(forest, trees)) == RestoredList(forest, trees, done)
  {
    if trees != [] {
      var n := |trees| - 1;
      RestoredRoots(forest, trees[..n], done);
      var c := trees[n];
      var more := if !c.IsLeaf() then [RestoredTree(forest, c)]
                  else if c.node in forest.aside && forest.aside[c.node] != [] then LeafTrees(forest.aside[c.node])
                  else [c];
      assert Roots(RestoredTrees(forest, trees[..n]) + more) == Roots(RestoredTrees(forest, trees[..n])) + Roots(more);
      assert Roots(more) == InPlace(forest, c, done);
    }
  }

  /** After the last leaf the forest shows the restored tree. */
  lemma {:induction false} RestoredShown(forest: Forest, forest': Forest, t: Tree, done: set<InfoNode>, s: Tree)
    requires Shows(forest, t) && Midway(forest, forest', t, done) && AsideAreLeaves(forest, done)
    requires (forall l :: l in done <==> l in Leaves(t)) && SubtreeOf(s, t) && !s.IsLeaf()
    ensures Shows(forest', RestoredTree(forest, s))
    decreases s
  {
    hide RestoredList;
    SubtreeShown(forest, s, t);
    forall c | c in s.children && c.IsLeaf() ensures c.node in done {
      SubtreeChild(s, c, t);
      LeafIn(c, t);
    }
    RestoredRoots(forest, s.children, done);
    forall c | c in RestoredTrees(forest, s.children) ensures Shows(forest', c) {
      var k := RestoredFrom(forest, s.children, c);
      var d := s.children[k];
      assert d in s.children;
      SubtreeChild(s, d, t);
      if !d.IsLeaf() {
        RestoredShown(forest, forest', t, done, d);
      } else {
        assert Shows(forest, d);
        LeafShown(forest, forest', t, done, d, c);
      }
    }
    assert s.node in forest'.aside;
  }

  lemma {:induction false} LeafShown(forest: Forest, forest': Forest, t: Tree, done: set<InfoNode>, d: Tree, c: Tree)
    requires Shows(forest, t) && Midway(forest, forest', t, done) && AsideAreLeaves(forest, done)
    requires Shows(forest, d) && d.IsLeaf() && d.node in done && c.IsLeaf()
    requires if forest.aside[d.node] != [] then c.node in forest.aside[d.node] else c == d
    ensures Shows(forest', c)
  {
    var e := c.node;
    assert |forest.children[d.node]| == 0;
    assert e in forest.children && e in forest.aside && forest.children[e] == [];
    assert e !in Gone(forest, done);
    assert Shows(forest, c) by { assert Roots([]) == []; }
    LeafIsNoModule(forest, t, c);
    assert forest'.children[e] == Roots([]);
  }

  /** Each restored child comes from one of the children. */
  lemma {:induction false} RestoredFrom(forest: Forest, trees: seq<Tree>, c: Tree) returns (k: nat)
    requires c in RestoredTrees(forest, trees)
    ensures k < |trees|
    ensures !trees[k].IsLeaf() ==> c == RestoredTree(forest, trees[k])
    ensures trees[k].IsLeaf() ==>
              if trees[k].node in forest.aside && forest.aside[trees[k].node] != []
              then c.IsLeaf() && c.node in forest.aside[trees[k].node]
              else c == trees[k]
  {
    var n := |trees| - 1;
    if c in RestoredTrees(forest, trees[..n]) {
      k := RestoredFrom(forest, trees[..n], c);
    } else {
      k := n;
    }
  }

  lemma {:induction false} SubtreeChild(s: Tree, c: Tree, t: Tree)
    requires SubtreeOf(s, t) && c in s.children
    ensures SubtreeOf(c, t)
  {
    if s == t {
      assert SubtreeOf(c, c);
    } else {
      var d :| d in t.children && SubtreeOf(s, d);
      SubtreeChild(s, c, d);
    }
  }

  lemma {:induction false} LeafIn(c: Tree, t: Tree)
    requires SubtreeOf(c, t) && c.IsLeaf()
    ensures c.node in Leaves(t)
    decreases t
  {
    if c != t {
      var d :| d in t.children && SubtreeOf(c, d);
      LeafIn(c, d);
      var i :| 0 <= i < |t.children| && t.children[i] == d;
      LeavesInclude(t.children, i, c.node);
    }
  }

  lemma {:induction false} LeavesInclude(trees: seq<Tree>, i: nat, l: InfoNode)
    requires i < |trees| && l in Leaves(trees[i])
    ensures l in LeavesAll(trees)
  {
    if i < |trees| - 1 { LeavesInclude(trees[..|trees| - 1], i, l); }
  }

  /** A node is one of the leaves, or was put aside under one of them. */
  ghost predicate IsOriginal(forest: Forest, leaves: seq<InfoNode>, e: InfoNode)
  {
    e in leaves || exists l :: l in leaves && l in forest.aside && e in forest.aside[l]
  }

  /** No original leaf comes back twice. */
  lemma {:induction false} OriginalsOnce(m: Memory, forest: Forest, leaves: seq<InfoNode>)
    requires Linked(m, forest) && NoDuplicates(leaves) && (forall l :: l in leaves ==> l in m)
    requires AsideAreLeaves(forest, Listed(leaves))
    ensures NoDuplicates(Originals(forest, leaves))
    ensures forall e :: e in Originals(forest, leaves) ==> IsOriginal(forest, leaves, e)
  {
    if leaves != [] {
      hide ListOk, Linked;
      var n := |leaves| - 1;
      var l := leaves[n];
      assert leaves == leaves[..n] + [l];
      assert Listed(leaves[..n]) <= Listed(leaves);
      FewerAside(forest, Listed(leaves[..n]), Listed(leaves));
      OriginalsOnce(m, forest, leaves[..n]);
      LinkedKeys(m, forest);
      NodeParts(m, forest, l);
      ListParents(m, forest.aside[l], l, m[l].collapsedFirstChild, m[l].collapsedLastChild);
      assert l in Listed(leaves);
      var more := if forest.aside[l] != [] then forest.aside[l] else [l];
      forall e | e in Originals(forest, leaves[..n]) ensures e !in more && IsOriginal(forest, leaves, e) {
        OriginalIn(m, forest, leaves, n, e);
      }
      JoinedDistinct(Originals(forest, leaves[..n]), more);
    }
  }

  lemma {:induction false} FewerAside(forest: Forest, few: set<InfoNode>, many: set<InfoNode>)
    requires AsideAreLeaves(forest, many) && few <= many
    ensures AsideAreLeaves(forest, few)
  {
  }

  lemma {:induction false} OriginalIn(m: Memory, forest: Forest, leaves: seq<InfoNode>, n: nat, e: InfoNode)
    requires Linked(m, forest) && NoDuplicates(leaves) && n == |leaves| - 1 && (forall l :: l in leaves ==> l in m)
    requires AsideAreLeaves(forest, Listed(leaves)) && leaves[n] in forest.aside
    requires IsOriginal(forest, leaves[..n], e)
    ensures e !in forest.aside[leaves[n]] && e != leaves[n] && IsOriginal(forest, leaves, e)
  {
    hide ListOk, Linked;
    var last := leaves[n];
    assert leaves == leaves[..n] + [last];
    assert last in Listed(leaves);
    NodeParts(m, forest, last);
    if e in leaves[..n] {
      assert e in Listed(leaves);
    } else {
      var l :| l in leaves[..n] && l in forest.aside && e in forest.aside[l];
      assert l in Listed(leaves) && l != last;
      NodeParts(m, forest, l);
    }
  }
}
