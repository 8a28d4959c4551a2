/** The module tree as it lies in memory: every node points to its parent, its siblings and the two
    ends of its list of children. A forest is what those pointers are meant to say, the list of
    children of every node; surgery on the pointers is specified as surgery on the lists. */
module InfoTrees {

  class InfoNode {
    var parent: InfoNode?
    var previous: InfoNode?
    var next: InfoNode?
    var firstChild: InfoNode?
    var lastChild: InfoNode?
    var collapsedFirstChild: InfoNode?
    var collapsedLastChild: InfoNode?
    var childDegree: nat

    constructor ()
      ensures parent == previous == next == firstChild == lastChild == null
      ensures collapsedFirstChild == collapsedLastChild == null && childDegree == 0
    {
      parent, previous, next, firstChild, lastChild := null, null, null, null, null;
      collapsedFirstChild, collapsedLastChild, childDegree := null, null, 0;
    }

    // ----- Single writes, with their effect on the memory of a set of nodes -----

    method SetParent(n: InfoNode?, ghost nodes: set<InfoNode>)
      requires this in nodes
      modifies `parent
      ensures Snapshot(nodes) == WithParent(old(Snapshot(nodes)), this, n)
      ensures parent == n
    {
      parent := n;
    }

    method SetPrevious(n: InfoNode?, ghost nodes: set<InfoNode>)
      requires this in nodes
      modifies `previous
      ensures Snapshot(nodes) == WithPrevious(old(Snapshot(nodes)), this, n)
      ensures previous == n
    {
      previous := n;
    }

    method SetNext(n: InfoNode?, ghost nodes: set<InfoNode>)
      requires this in nodes
      modifies `next
      ensures Snapshot(nodes) == WithNext(old(Snapshot(nodes)), this, n)
      ensures next == n
    {
      next := n;
    }

    method SetFirstChild(n: InfoNode?, ghost nodes: set<InfoNode>)
      requires this in nodes
      modifies `firstChild
      ensures Snapshot(nodes) == WithFirstChild(old(Snapshot(nodes)), this, n)
      ensures firstChild == n
    {
      firstChild := n;
    }

    method SetLastChild(n: InfoNode?, ghost nodes: set<InfoNode>)
      requires this in nodes
      modifies `lastChild
      ensures Snapshot(nodes) == WithLastChild(old(Snapshot(nodes)), this, n)
      ensures lastChild == n
    {
      lastChild := n;
    }

    method SetCollapsedFirstChild(n: InfoNode?, ghost nodes: set<InfoNode>)
      requires this in nodes
      modifies `collapsedFirstChild
      ensures Snapshot(nodes) == WithCollapsedFirstChild(old(Snapshot(nodes)), this, n)
      ensures collapsedFirstChild == n
    {
      collapsedFirstChild := n;
    }

    method SetCollapsedLastChild(n: InfoNode?, ghost nodes: set<InfoNode>)
      requires this in nodes
      modifies `collapsedLastChild
      ensures Snapshot(nodes) == WithCollapsedLastChild(old(Snapshot(nodes)), this, n)
      ensures collapsedLastChild == n
    {
      collapsedLastChild := n;
    }

    method SetChildDegree(d: nat, ghost nodes: set<InfoNode>)
      requires this in nodes
      modifies `childDegree
      ensures Snapshot(nodes) == WithDegree(old(Snapshot(nodes)), this, d)
    {
      childDegree := d;
    }
  }

  /** The pointers of one node, as a value. */
  datatype Pointers = Pointers(parent: InfoNode?, previous: InfoNode?, next: InfoNode?,
                               firstChild: InfoNode?, lastChild: InfoNode?,
                               collapsedFirstChild: InfoNode?, collapsedLastChild: InfoNode?, childDegree: nat)

  type Memory = map<InfoNode, Pointers>

  ghost function Snapshot(nodes: set<InfoNode>): (m: Memory)
    reads nodes
    ensures m.Keys == nodes
  {
    map n | n in nodes :: Pointers(n.parent, n.previous, n.next, n.firstChild, n.lastChild,
                                   n.collapsedFirstChild, n.collapsedLastChild, n.childDegree)
  }

  lemma {:induction false} SnapshotAt(nodes: set<InfoNode>, n: InfoNode)
    requires n in nodes
    ensures Snapshot(nodes)[n] == Pointers(n.parent, n.previous, n.next, n.firstChild, n.lastChild,
                                           n.collapsedFirstChild, n.collapsedLastChild, n.childDegree)
  {
  }

  // One write to memory.

  ghost function WithParent(m: Memory, n: InfoNode, v: InfoNode?): (r: Memory)
    requires n in m
    ensures r.Keys == m.Keys
  {
    m[n := m[n].(parent := v)]
  }

  ghost function WithPrevious(m: Memory, n: InfoNode, v: InfoNode?): (r: Memory)
    requires n in m
    ensures r.Keys == m.Keys
  {
    m[n := m[n].(previous := v)]
  }

  ghost function WithNext(m: Memory, n: InfoNode, v: InfoNode?): (r: Memory)
    requires n in m
    ensures r.Keys == m.Keys
  {
    m[n := m[n].(next := v)]
  }

  ghost function WithFirstChild(m: Memory, n: InfoNode, v: InfoNode?): (r: Memory)
    requires n in m
    ensures r.Keys == m.Keys
  {
    m[n := m[n].(firstChild := v)]
  }

  ghost function WithLastChild(m: Memory, n: InfoNode, v: InfoNode?): (r: Memory)
    requires n in m
    ensures r.Keys == m.Keys
  {
    m[n := m[n].(lastChild := v)]
  }

  ghost function WithCollapsedFirstChild(m: Memory, n: InfoNode, v: InfoNode?): (r: Memory)
    requires n in m
    ensures r.Keys == m.Keys
  {
    m[n := m[n].(collapsedFirstChild := v)]
  }

  ghost function WithCollapsedLastChild(m: Memory, n: InfoNode, v: InfoNode?): (r: Memory)
    requires n in m
    ensures r.Keys == m.Keys
  {
    m[n := m[n].(collapsedLastChild := v)]
  }

  ghost function WithDegree(m: Memory, n: InfoNode, d: nat): (r: Memory)
    requires n in m
    ensures r.Keys == m.Keys
  {
    m[n := m[n].(childDegree := d)]
  }

  /** The list of children of every node, and the lists of children put aside. */
  datatype Forest = Forest(children: map<InfoNode, seq<InfoNode>>, aside: map<InfoNode, seq<InfoNode>>)

  ghost predicate NoDuplicates(xs: seq<InfoNode>)
  {
    forall i, j :: 0 <= i < j < |xs| ==> xs[i] != xs[j]
  }

  /** Node i of the list knows its owner and its neighbours. */
  ghost predicate LinkOk(m: Memory, xs: seq<InfoNode>, i: nat, owner: InfoNode)
    requires i < |xs|
  {
    && xs[i] in m && m[xs[i]].parent == owner
    && m[xs[i]].previous == (if i == 0 then null else xs[i - 1])
    && m[xs[i]].next == (if i == |xs| - 1 then null else xs[i + 1])
  }

  ghost predicate ListOk(m: Memory, xs: seq<InfoNode>, owner: InfoNode, first: InfoNode?, last: InfoNode?)
  {
    && NoDuplicates(xs)
    && (if xs == [] then first == null && last == null else first == xs[0] && last == xs[|xs| - 1])
    && forall i :: 0 <= i < |xs| ==> LinkOk(m, xs, i, owner)
  }

  /** The pointers of node n say what the forest says. */
  ghost predicate NodeOk(m: Memory, n: InfoNode, forest: Forest)
    requires n in m && n in forest.children && n in forest.aside
  {
    && ListOk(m, forest.children[n], n, m[n].firstChild, m[n].lastChild)
    && m[n].childDegree == |forest.children[n]|
    && ListOk(m, forest.aside[n], n, m[n].collapsedFirstChild, m[n].collapsedLastChild)
    && forall c :: c in forest.children[n] ==> c !in forest.aside[n]
  }

  ghost predicate Linked(m: Memory, forest: Forest)
  {
    && m.Keys == forest.children.Keys == forest.aside.Keys
    && forall n :: n in m ==> NodeOk(m, n, forest)
  }

  // ----- Lists after a change of memory -----

  /** The same node has the same neighbours and owner. */
  ghost predicate SameLinks(m: Memory, m': Memory, c: InfoNode)
  {
    c in m && c in m' && m[c].parent == m'[c].parent && m[c].previous == m'[c].previous && m[c].next == m'[c].next
  }

  lemma {:induction false} ListKept(m: Memory, m': Memory, xs: seq<InfoNode>, owner: InfoNode, first: InfoNode?,
                                    last: InfoNode?)
    requires ListOk(m, xs, owner, first, last) && forall c :: c in xs ==> SameLinks(m, m', c)
    ensures ListOk(m', xs, owner, first, last)
  {
    forall i | 0 <= i < |xs| ensures LinkOk(m', xs, i, owner) {
      assert LinkOk(m, xs, i, owner) && SameLinks(m, m', xs[i]);
    }
  }

  /** A node whose own ends did not change and whose members are linked as before. */
  lemma {:induction false} NodeKept(m: Memory, m': Memory, n: InfoNode, forest: Forest, forest': Forest)
    requires n in m && n in forest.children && n in forest.aside && NodeOk(m, n, forest)
    requires n in m' && n in forest'.children && n in forest'.aside
    requires forest'.children[n] == forest.children[n] && forest'.aside[n] == forest.aside[n]
    requires m'[n].firstChild == m[n].firstChild && m'[n].lastChild == m[n].lastChild
              && m'[n].childDegree == m[n].childDegree
    requires m'[n].collapsedFirstChild == m[n].collapsedFirstChild
              && m'[n].collapsedLastChild == m[n].collapsedLastChild
    requires forall c :: c in forest.children[n] || c in forest.aside[n] ==> SameLinks(m, m', c)
    ensures NodeOk(m', n, forest')
  {
    ListKept(m, m', forest.children[n], n, m[n].firstChild, m[n].lastChild);
    ListKept(m, m', forest.aside[n], n, m[n].collapsedFirstChild, m[n].collapsedLastChild);
  }

  /** What the pointers say about one node. */
  lemma {:induction false} NodeParts(m: Memory, forest: Forest, n: InfoNode)
    requires Linked(m, forest) && n in m
    ensures n in forest.children && n in forest.aside
    ensures ListOk(m, forest.children[n], n, m[n].firstChild, m[n].lastChild)
              && m[n].childDegree == |forest.children[n]|
    ensures ListOk(m, forest.aside[n], n, m[n].collapsedFirstChild, m[n].collapsedLastChild)
    ensures forall c :: c in forest.children[n] ==> c !in forest.aside[n]
    ensures forall c :: c in forest.children[n] || c in forest.aside[n] ==> c in m && m[c].parent == n
  {
    assert NodeOk(m, n, forest);
    forall c | c in forest.children[n] ensures c in m && m[c].parent == n {
      var i :| 0 <= i < |forest.children[n]| && forest.children[n][i] == c;
      assert LinkOk(m, forest.children[n], i, n);
    }
    forall c | c in forest.aside[n] ensures c in m && m[c].parent == n {
      var i :| 0 <= i < |forest.aside[n]| && forest.aside[n][i] == c;
      assert LinkOk(m, forest.aside[n], i, n);
    }
  }

  // ----- Adding a child -----

  ghost function WithChild(forest: Forest, p: InfoNode, child: InfoNode): Forest
    requires p in forest.children
  {
    forest.(children := forest.children[p := forest.children[p] + [child]])
  }

  /** The ends of a node's two lists and its degree. */
  ghost predicate SameEnds(m: Memory, m': Memory, n: InfoNode)
  {
    && n in m && n in m'
    && m'[n].firstChild == m[n].firstChild && m'[n].lastChild == m[n].lastChild && m'[n].childDegree == m[n].childDegree
    && m'[n].collapsedFirstChild == m[n].collapsedFirstChild && m'[n].collapsedLastChild == m[n].collapsedLastChild
  }

  lemma {:induction false} ListAppended(m: Memory, m': Memory, xs: seq<InfoNode>, p: InfoNode, first: InfoNode?,
                                        last: InfoNode?, child: InfoNode)
    requires ListOk(m, xs, p, first, last) && child !in xs
    requires forall c :: c in xs && c != last ==> SameLinks(m, m', c)
    requires child in m' && m'[child].parent == p && m'[child].previous == last && m'[child].next == null
    requires last != null ==> last in m && last in m' && m'[last].next == child
                              && m'[last].parent == m[last].parent && m'[last].previous == m[last].previous
    ensures ListOk(m', xs + [child], p, if first == null then child else first, child)
  {
    var more := xs + [child];
    forall i | 0 <= i < |more| ensures LinkOk(m', more, i, p) {
      if i < |xs| {
        assert LinkOk(m, xs, i, p);
        if i < |xs| - 1 {
          assert xs[i] != xs[|xs| - 1];
          assert SameLinks(m, m', xs[i]);
        }
      }
    }
  }

  /** Linking in a last child. */
  lemma {:induction false} ChildAddedLinked(m: Memory, m': Memory, forest: Forest, p: InfoNode, child: InfoNode)
    requires Linked(m, forest) && p in m && child in m && p != child && m'.Keys == m.Keys
    requires forall n :: n in m ==> child !in forest.children[n] && child !in forest.aside[n]
    requires forall n :: n in m && n != p ==> SameEnds(m, m', n)
    requires forall c :: c in m && c != child && c != m[p].lastChild ==> SameLinks(m, m', c)
    requires m'[child].parent == p && m'[child].previous == m[p].lastChild && m'[child].next == null
    requires var last := m[p].lastChild;
             last != null && last in m ==>
               m'[last].next == child && m'[last].parent == m[last].parent && m'[last].previous == m[last].previous
    requires m'[p].firstChild == (if m[p].firstChild == null then child else m[p].firstChild)
              && m'[p].lastChild == child
    requires m'[p].childDegree == m[p].childDegree + 1
    requires m'[p].collapsedFirstChild == m[p].collapsedFirstChild
              && m'[p].collapsedLastChild == m[p].collapsedLastChild
    ensures Linked(m', WithChild(forest, p, child))
  {
    hide ListOk, Linked, NodeOk;
    LinkedKeys(m, forest);
    var forest', last := WithChild(forest, p, child), m[p].lastChild;
    NodeParts(m, forest, p);
    LastIsChild(m, forest, p);
    forall n | n in m' ensures n in forest'.children && n in forest'.aside && NodeOk(m', n, forest') {
      NodeParts(m, forest, n);
      if n != p {
        LinkedNode(m, forest, n);
        NodeKept(m, m', n, forest, forest');
      } else {
        ListAppended(m, m', forest.children[p], p, m[p].firstChild, last, child);
        ListKept(m, m', forest.aside[p], p, m[p].collapsedFirstChild, m[p].collapsedLastChild);
        NodeFrom(m', p, forest');
      }
    }
    LinkedFrom(m', forest');
  }

  lemma {:induction false} LastIsChild(m: Memory, forest: Forest, p: InfoNode)
    requires Linked(m, forest) && p in m
    ensures m[p].lastChild != null ==> p in forest.children && m[p].lastChild in forest.children[p]
    ensures m[p].firstChild == null <==> m[p].lastChild == null
    ensures p in forest.children && (forest.children[p] == [] <==> m[p].lastChild == null)
  {
    assert NodeOk(m, p, forest);
  }

  lemma {:induction false} LinkedKeys(m: Memory, forest: Forest)
    requires Linked(m, forest)
    ensures m.Keys == forest.children.Keys == forest.aside.Keys
  {
  }

  lemma {:induction false} LinkedNode(m: Memory, forest: Forest, n: InfoNode)
    requires Linked(m, forest) && n in m
    ensures n in forest.children && n in forest.aside && NodeOk(m, n, forest)
  {
  }

  lemma {:induction false} NodeFrom(m: Memory, n: InfoNode, forest: Forest)
    requires n in m && n in forest.children && n in forest.aside
    requires ListOk(m, forest.children[n], n, m[n].firstChild, m[n].lastChild)
              && m[n].childDegree == |forest.children[n]|
    requires ListOk(m, forest.aside[n], n, m[n].collapsedFirstChild, m[n].collapsedLastChild)
    requires forall c :: c in forest.children[n] ==> c !in forest.aside[n]
    ensures NodeOk(m, n, forest)
  {
  }

  lemma {:induction false} LinkedFrom(m: Memory, forest: Forest)
    requires m.Keys == forest.children.Keys == forest.aside.Keys
    requires forall n :: n in m ==> NodeOk(m, n, forest)
    ensures Linked(m, forest)
  {
  }

  // ----- Replacing a node with its children -----

  /** The list with member i replaced with other members. */
  ghost function Spliced(xs: seq<InfoNode>, i: nat, kids: seq<InfoNode>): (r: seq<InfoNode>)
    requires i < |xs|
    ensures |r| == |xs| - 1 + |kids|
    ensures forall k :: 0 <= k < |r| ==>
              r[k] == if k < i then xs[k] else if k < i + |kids| then kids[k - i] else xs[k - |kids| + 1]
  {
    xs[..i] + kids + xs[i + 1..]
  }

  ghost function WithoutNode(forest: Forest, p: InfoNode, i: nat): Forest
    requires p in forest.children && i < |forest.children[p]| && forest.children[p][i] in forest.children
  {
    var x := forest.children[p][i];
    Forest(forest.children[p := Spliced(forest.children[p], i, forest.children[x])] - {x}, forest.aside - {x})
  }

  /** Memory after a node of a list was replaced with its children. */
  ghost predicate SpliceDone(m: Memory, m': Memory, xs: seq<InfoNode>, i: nat, kids: seq<InfoNode>, p: InfoNode)
    requires i < |xs| && kids != []
  {
    var x, first, last := xs[i], kids[0], kids[|kids| - 1];
    && (forall c :: c in m && c != x && c !in kids
                    && (i == 0 || c != xs[i - 1]) && (i == |xs| - 1 || c != xs[i + 1]) ==>
          SameLinks(m, m', c))
    && (forall k :: 0 <= k < |kids| ==>
          kids[k] in m' && kids[k] in m && m'[kids[k]].parent == p
          && m'[kids[k]].previous == (if k == 0 then (if i == 0 then null else xs[i - 1]) else m[kids[k]].previous)
          && m'[kids[k]].next == (if k == |kids| - 1 then (if i
             == |xs| - 1 then null else xs[i + 1]) else m[kids[k]].next))
    && (i > 0 ==> xs[i - 1] in m && xs[i - 1] in m' && m'[xs[i - 1]].parent == m[xs[i - 1]].parent
                  && m'[xs[i - 1]].previous == m[xs[i - 1]].previous && m'[xs[i - 1]].next == first)
    && (i < |xs| - 1 ==> xs[i + 1] in m && xs[i + 1] in m' && m'[xs[i + 1]].parent == m[xs[i + 1]].parent
                         && m'[xs[i + 1]].next == m[xs[i + 1]].next && m'[xs[i + 1]].previous == last)
  }

  lemma {:induction false} ListSpliced(m: Memory, m': Memory, xs: seq<InfoNode>, i: nat, kids: seq<InfoNode>,
                                       p: InfoNode,
                                       first: InfoNode?, last: InfoNode?, firstKid: InfoNode?, lastKid: InfoNode?)
    requires i < |xs| && kids != [] && xs[i] != p
    requires ListOk(m, xs, p, first, last) && ListOk(m, kids, xs[i], firstKid, lastKid)
    requires SpliceDone(m, m', xs, i, kids, p)
    ensures ListOk(m', Spliced(xs, i, kids), p, if i == 0 then firstKid else first,
              if i == |xs| - 1 then lastKid else last)
  {
    var ys := Spliced(xs, i, kids);
    forall a, b | 0 <= a < |xs| && 0 <= b < |kids| ensures xs[a] != kids[b] {
      assert LinkOk(m, xs, a, p) && LinkOk(m, kids, b, xs[i]);
    }
    SplicedDistinct(xs, i, kids);
    forall k | 0 <= k < |ys| ensures LinkOk(m', ys, k, p) {
      SplicedLink(m, m', xs, i, kids, p, k);
    }
  }

  lemma {:induction false} SplicedDistinct(xs: seq<InfoNode>, i: nat, kids: seq<InfoNode>)
    requires i < |xs| && NoDuplicates(xs) && NoDuplicates(kids)
    requires forall a, b :: 0 <= a < |xs| && 0 <= b < |kids| ==> xs[a] != kids[b]
    ensures NoDuplicates(Spliced(xs, i, kids))
  {
    var ys := Spliced(xs, i, kids);
    forall k, l | 0 <= k < l < |ys| ensures ys[k] != ys[l] {
      assert ys[k] == if k < i then xs[k] else if k < i + |kids| then kids[k - i] else xs[k - |kids| + 1];
      assert ys[l] == if l < i then xs[l] else if l < i + |kids| then kids[l - i] else xs[l - |kids| + 1];
    }
  }

  lemma {:induction false} SplicedLink(m: Memory, m': Memory, xs: seq<InfoNode>, i: nat, kids: seq<InfoNode>,
                                       p: InfoNode, k: nat)
    requires i < |xs| && kids != [] && NoDuplicates(xs) && k < |Spliced(xs, i, kids)|
    requires forall a :: 0 <= a < |xs| ==> LinkOk(m, xs, a, p)
    requires forall b :: 0 <= b < |kids| ==> LinkOk(m, kids, b, xs[i])
    requires forall a, b :: 0 <= a < |xs| && 0 <= b < |kids| ==> xs[a] != kids[b]
    requires SpliceDone(m, m', xs, i, kids, p)
    ensures LinkOk(m', Spliced(xs, i, kids), k, p)
  {
    var ys, n := Spliced(xs, i, kids), |kids|;
    if i <= k < i + n {
      assert LinkOk(m, kids, k - i, xs[i]);
    } else {
      var a := if k < i then k else k - n + 1;
      assert ys[k] == xs[a] && LinkOk(m, xs, a, p);
      if a != i - 1 && a != i + 1 {
        assert SameLinks(m, m', xs[a]);
      }
    }
  }

  /** Taking a node out and putting its children in its place. */
  lemma {:induction false} SpliceLinked(m: Memory, m': Memory, forest: Forest, p: InfoNode, i: nat)
    requires Linked(m, forest) && p in m && p in forest.children && i < |forest.children[p]|
    requires var x := forest.children[p][i];
             && x != p && x in m && x in forest.children && x in forest.aside
             && forest.children[x] != [] && forest.aside[x] == []
             && m'.Keys == m.Keys - {x}
             && SpliceDone(m, m', forest.children[p], i, forest.children[x], p)
             && (forall n :: n in m && n != p && n != x ==> SameEnds(m, m', n))
             && m'[p].firstChild == (if i == 0 then m[x].firstChild else m[p].firstChild)
             && m'[p].lastChild == (if i == |forest.children[p]| - 1 then m[x].lastChild else m[p].lastChild)
             && m'[p].childDegree == m[p].childDegree + |forest.children[x]| - 1
             && m'[p].collapsedFirstChild == m[p].collapsedFirstChild
                && m'[p].collapsedLastChild == m[p].collapsedLastChild
    ensures Linked(m', WithoutNode(forest, p, i))
  {
    hide ListOk, Linked, NodeOk, SpliceDone;
    LinkedKeys(m, forest);
    var xs := forest.children[p];
    var x := xs[i];
    var kids, forest' := forest.children[x], WithoutNode(forest, p, i);
    NodeParts(m, forest, p);
    NodeParts(m, forest, x);
    forall n | n in m' ensures NodeOk(m', n, forest') {
      NodeParts(m, forest, n);
      if n != p {
        LinkedNode(m, forest, n);
        forall c | c in forest.children[n] || c in forest.aside[n] ensures SameLinks(m, m', c) {
          UntouchedLinks(m, m', xs, i, kids, p, c);
        }
        NodeKept(m, m', n, forest, forest');
      } else {
        ListSpliced(m, m', xs, i, kids, p, m[p].firstChild, m[p].lastChild, m[x].firstChild, m[x].lastChild);
        forall c | c in forest.aside[p] ensures SameLinks(m, m', c) {
          UntouchedLinks(m, m', xs, i, kids, p, c);
        }
        ListKept(m, m', forest.aside[p], p, m[p].collapsedFirstChild, m[p].collapsedLastChild);
        NodeFrom(m', p, forest');
      }
    }
    LinkedFrom(m', forest');
  }

  lemma {:induction false} UntouchedLinks(m: Memory, m': Memory, xs: seq<InfoNode>, i: nat, kids: seq<InfoNode>,
                                          p: InfoNode, c: InfoNode)
    requires i < |xs| && kids != [] && SpliceDone(m, m', xs, i, kids, p)
    requires c in m && c !in xs && c !in kids
    ensures SameLinks(m, m', c)
  {
  }

  // ----- The operations -----

  ghost predicate AddReady(m: Memory, p: InfoNode, child: InfoNode)
  {
    && p in m && child in m && child != p && child != m[p].lastChild
    && (m[p].firstChild == null <==> m[p].lastChild == null)
    && (m[p].firstChild != null ==> m[p].lastChild in m)
  }

  /** Memory after a child was linked in as the last one. */
  ghost function AddedMemory(m: Memory, p: InfoNode, child: InfoNode): (r: Memory)
    requires AddReady(m, p, child)
    ensures r.Keys == m.Keys
  {
    var m1 := if m[p].firstChild == null then WithFirstChild(WithPrevious(m, child, null), p, child)
              else WithNext(WithPrevious(m, child, m[p].lastChild), m[p].lastChild, child);
    var m2 := WithParent(WithNext(WithLastChild(m1, p, child), child, null), child, p);
    WithDegree(m2, p, m2[p].childDegree + 1)
  }

  /** The fields of one node after a child was added. */
  lemma {:induction false} AddedMemoryAt(m: Memory, p: InfoNode, child: InfoNode, c: InfoNode)
    requires AddReady(m, p, child) && c in m
    ensures var r := AddedMemory(m, p, child)[c];
            && r.parent == (if c == child then p else m[c].parent)
            && r.previous == (if c == child then m[p].lastChild else m[c].previous)
            && r.next == (if c == child then null else if c == m[p].lastChild then child else m[c].next)
            && r.firstChild == (if c == p && m[p].firstChild == null then child else m[c].firstChild)
            && r.lastChild == (if c == p then child else m[c].lastChild)
            && r.childDegree == (if c == p then m[p].childDegree + 1 else m[c].childDegree)
            && r.collapsedFirstChild == m[c].collapsedFirstChild && r.collapsedLastChild == m[c].collapsedLastChild
  {
  }

  lemma {:induction false} AddedMemoryLinked(m: Memory, forest: Forest, p: InfoNode, child: InfoNode)
    requires Linked(m, forest) && p in m && child in m && p != child
    requires forall n :: n in m ==> n in forest.children && n in forest.aside
                                    && child !in forest.children[n] && child !in forest.aside[n]
    ensures p in forest.children && AddReady(m, p, child)
    ensures Linked(AddedMemory(m, p, child), WithChild(forest, p, child))
  {
    hide Linked, NodeOk, ListOk, WithChild;
    LinkedKeys(m, forest);
    LastIsChild(m, forest, p);
    NodeParts(m, forest, p);
    var m' := AddedMemory(m, p, child);
    var last := m[p].lastChild;
    forall c | c in m ensures SameEnds(m, m', c) || c == p {
      AddedMemoryAt(m, p, child, c);
    }
    forall c | c in m && c != child && c != last ensures SameLinks(m, m', c) {
      AddedMemoryAt(m, p, child, c);
    }
    AddedMemoryAt(m, p, child, p);
    AddedMemoryAt(m, p, child, child);
    if last != null { AddedMemoryAt(m, p, child, last); }
    hide AddedMemory;
    ChildAddedLinked(m, m', forest, p, child);
  }

  method AddChild(p: InfoNode, child: InfoNode, ghost nodes: set<InfoNode>, ghost forest: Forest)
    requires Linked(Snapshot(nodes), forest) && p in nodes && child in nodes && p != child
    requires forall n :: n in nodes ==> n in forest.children && n in forest.aside
                                        && child !in forest.children[n] && child !in forest.aside[n]
    modifies nodes
    ensures p in forest.children && Linked(Snapshot(nodes), WithChild(forest, p, child))
    ensures AddReady(old(Snapshot(nodes)), p, child) && Snapshot(nodes) == AddedMemory(old(Snapshot(nodes)), p, child)
  {
    hide Linked, WithChild, Snapshot, WithParent, WithPrevious, WithNext, WithFirstChild, WithLastChild, WithDegree;
    ghost var m := Snapshot(nodes);
    AddedMemoryLinked(m, forest, p, child);
    SnapshotAt(nodes, p);
    if p.firstChild == null {
      child.SetPrevious(null, nodes);
      p.SetFirstChild(child, nodes);
    } else {
      child.SetPrevious(p.lastChild, nodes);
      p.lastChild.SetNext(child, nodes);
    }
    p.SetLastChild(child, nodes);
    child.SetNext(null, nodes);
    child.SetParent(p, nodes);
    SnapshotAt(nodes, p);
    p.SetChildDegree(p.childDegree + 1, nodes);
    assert Snapshot(nodes) == AddedMemory(m, p, child);
  }

  /** The neighbours that a splice writes to are there, and are not the node itself. */
  ghost predicate SpliceReady(m: Memory, x: InfoNode, p: InfoNode, delta: nat)
  {
    && x in m && p in m && x != p && m[p].childDegree + delta >= 1
    && m[x].firstChild in m && m[x].lastChild in m
    && m[x].firstChild != x && m[x].lastChild != x && m[x].previous != x
    && (m[p].firstChild != x ==> m[x].previous in m)
    && (m[p].lastChild != x ==> m[x].next in m)
  }

  /** Memory after the children of x took its place in the list of p, their parent being set already. */
  ghost function SplicedMemory(m: Memory, x: InfoNode, p: InfoNode, delta: nat): (r: Memory)
    requires SpliceReady(m, x, p, delta)
    ensures r.Keys == m.Keys
  {
    var m1 := WithDegree(m, p, m[p].childDegree + delta - 1);
    var m2 := WithNext(WithPrevious(m1, m[x].firstChild, m[x].previous), m[x].lastChild, m[x].next);
    var m3 := if m[p].firstChild == x then WithFirstChild(m2, p, m[x].firstChild)
              else WithNext(m2, m[x].previous, m[x].firstChild);
    if m[p].lastChild == x then WithLastChild(m3, p, m[x].lastChild) else WithPrevious(m3, m[x].next, m[x].lastChild)
  }

  /** The fields of one node after the splice. */
  lemma {:induction false} SplicedMemoryAt(m: Memory, x: InfoNode, p: InfoNode, delta: nat, c: InfoNode)
    requires SpliceReady(m, x, p, delta) && c in m
    ensures var r := SplicedMemory(m, x, p, delta)[c];
            && r.parent == m[c].parent
            && r.previous == (if m[p].lastChild != x && c == m[x].next then m[x].lastChild
                              else if c == m[x].firstChild then m[x].previous else m[c].previous)
            && r.next == (if m[p].firstChild != x && c == m[x].previous then m[x].firstChild
                          else if c == m[x].lastChild then m[x].next else m[c].next)
            && r.firstChild == (if c == p && m[p].firstChild == x then m[x].firstChild else m[c].firstChild)
            && r.lastChild == (if c == p && m[p].lastChild == x then m[x].lastChild else m[c].lastChild)
            && r.childDegree == (if c == p then m[p].childDegree + delta - 1 else m[c].childDegree)
            && r.collapsedFirstChild == m[c].collapsedFirstChild && r.collapsedLastChild == m[c].collapsedLastChild
  {
  }

  /** The writes do what a splice of the lists has to do. */
  lemma {:induction false} SplicedMemoryDone(m: Memory, m1: Memory, xs: seq<InfoNode>, i: nat, kids: seq<InfoNode>,
                                             p: InfoNode)
    requires i < |xs| && kids != [] && p in m && xs[i] != p
    requires m1.Keys == m.Keys
    requires forall c :: c in m && c !in kids ==> m1[c] == m[c]
    requires forall c :: c in kids ==> c in m && m1[c] == m[c].(parent := p)
    requires ListOk(m, xs, p, m[p].firstChild, m[p].lastChild)
    requires xs[i] in m && ListOk(m, kids, xs[i], m[xs[i]].firstChild, m[xs[i]].lastChild)
    requires forall c :: c in xs ==> c in m && c !in kids
    requires m[p].childDegree >= 1
    ensures var x := xs[i];
            && SpliceReady(m1, x, p, |kids|)
            && SpliceDone(m, SplicedMemory(m1, x, p, |kids|) - {x}, xs, i, kids, p)
  {
    hide ListOk, SplicedMemory;
    var x := xs[i];
    ListEnds(m, xs, p, m[p].firstChild, m[p].lastChild);
    ListEnds(m, kids, x, m[x].firstChild, m[x].lastChild);
    ListMember(m, xs, p, m[p].firstChild, m[p].lastChild, i);
    ListParents(m, xs, p, m[p].firstChild, m[p].lastChild);
    ListParents(m, kids, x, m[x].firstChild, m[x].lastChild);
    assert x in xs && m1[x] == m[x];
    assert m[x].parent == p && x !in kids && kids[0] in kids && kids[|kids| - 1] in kids;
    assert i > 0 ==> xs[i - 1] != x;
    assert m1[p].firstChild == m[p].firstChild && m1[p].lastChild == m[p].lastChild
        && m1[p].childDegree == m[p].childDegree;
    assert i > 0 ==> xs[i - 1] in xs;
    assert i < |xs| - 1 ==> xs[i + 1] in xs;
    var m' := SplicedMemory(m1, x, p, |kids|) - {x};
    forall c | c in m && c != x && c !in kids && (i == 0 || c != xs[i - 1]) && (i == |xs| - 1 || c != xs[i + 1])
      ensures SameLinks(m, m', c)
    {
      SplicedMemoryAt(m1, x, p, |kids|, c);
    }
    forall k | 0 <= k < |kids|
      ensures kids[k] in m' && m'[kids[k]].parent == p
      ensures m'[kids[k]].previous == (if k == 0 then (if i == 0 then null else xs[i - 1]) else m[kids[k]].previous)
      ensures m'[kids[k]].next == (if k
                == |kids| - 1 then (if i == |xs| - 1 then null else xs[i + 1]) else m[kids[k]].next)
    {
      assert kids[k] in kids;
      ListMember(m, kids, x, m[x].firstChild, m[x].lastChild, k);
      SplicedMemoryAt(m1, x, p, |kids|, kids[k]);
    }
    if i > 0 { SplicedMemoryAt(m1, x, p, |kids|, xs[i - 1]); }
    if i < |xs| - 1 { SplicedMemoryAt(m1, x, p, |kids|, xs[i + 1]); }
  }

  lemma {:induction false} SplicedMemoryLinked(m: Memory, m1: Memory, forest: Forest, p: InfoNode, i: nat)
    requires Linked(m, forest) && p in m && p in forest.children && i < |forest.children[p]|
    requires var x := forest.children[p][i];
             && x != p && x in m && x in forest.children && x in forest.aside
             && forest.children[x] != [] && forest.aside[x] == []
             && Reparented(m, m1, forest.children[x], p, |forest.children[x]|)
    ensures var x := forest.children[p][i];
            && SpliceReady(m1, x, p, |forest.children[x]|)
            && Linked(SplicedMemory(m1, x, p, |forest.children[x]|) - {x}, WithoutNode(forest, p, i))
  {
    hide Linked, NodeOk, ListOk, WithoutNode, Reparented, SpliceDone, SplicedMemory, SpliceReady;
    LinkedKeys(m, forest);
    var xs := forest.children[p];
    var x := xs[i];
    var kids := forest.children[x];
    NodeParts(m, forest, p);
    NodeParts(m, forest, x);
    ReparentedAll(m, m1, kids, p);
    ListParents(m, xs, p, m[p].firstChild, m[p].lastChild);
    ListParents(m, kids, x, m[x].firstChild, m[x].lastChild);
    ListMember(m, xs, p, m[p].firstChild, m[p].lastChild, i);
    SplicedMemoryDone(m, m1, xs, i, kids, p);
    var m' := SplicedMemory(m1, x, p, |kids|) - {x};
    ReadyKeys(m1, x, p, |kids|);
    forall n | n in m && n != p && n != x ensures SameEnds(m, m', n) {
      SplicedMemoryAt(m1, x, p, |kids|, n);
    }
    SplicedMemoryAt(m1, x, p, |kids|, p);
    SpliceLinked(m, m', forest, p, i);
  }

  lemma {:induction false} ReadyKeys(m: Memory, x: InfoNode, p: InfoNode, delta: nat)
    requires SpliceReady(m, x, p, delta)
    ensures x in m && p in m && SplicedMemory(m, x, p, delta).Keys == m.Keys
  {
  }

  /** The first d of the children have got their new parent; nothing else has changed. */
  ghost predicate Reparented(m: Memory, m1: Memory, kids: seq<InfoNode>, p: InfoNode, d: nat)
  {
    && d <= |kids| && m1.Keys == m.Keys
    && (forall c :: c in m && c !in kids[..d] ==> m1[c] == m[c])
    && (forall k :: 0 <= k < d ==> kids[k] in m && m1[kids[k]] == m[kids[k]].(parent := p))
  }

  lemma {:induction false} ReparentNext(m: Memory, m1: Memory, kids: seq<InfoNode>, p: InfoNode, d: nat)
    requires NoDuplicates(kids) && Reparented(m, m1, kids, p, d) && d < |kids| && kids[d] in m
    ensures m1[kids[d]] == m[kids[d]]
    ensures Reparented(m, WithParent(m1, kids[d], p), kids, p, d + 1)
  {
    assert kids[..d + 1] == kids[..d] + [kids[d]];
    assert kids[d] !in kids[..d];
  }

  lemma {:induction false} ReparentedAll(m: Memory, m1: Memory, kids: seq<InfoNode>, p: InfoNode)
    requires Reparented(m, m1, kids, p, |kids|)
    ensures m1.Keys == m.Keys
    ensures forall c :: c in m && c !in kids ==> m1[c] == m[c]
    ensures forall c :: c in kids ==> c in m && m1[c] == m[c].(parent := p)
  {
    assert kids[..|kids|] == kids;
    forall c | c in kids ensures c in m && m1[c] == m[c].(parent := p) {
      var k :| 0 <= k < |kids| && kids[k] == c;
    }
  }

  lemma {:induction false} ListParents(m: Memory, xs: seq<InfoNode>, owner: InfoNode, first: InfoNode?, last: InfoNode?)
    requires ListOk(m, xs, owner, first, last)
    ensures forall c :: c in xs ==> c in m && m[c].parent == owner
    ensures NoDuplicates(xs)
  {
    forall c | c in xs ensures c in m && m[c].parent == owner {
      var a :| 0 <= a < |xs| && xs[a] == c;
      assert LinkOk(m, xs, a, owner);
    }
  }

  lemma {:induction false} ListEnds(m: Memory, xs: seq<InfoNode>, owner: InfoNode, first: InfoNode?, last: InfoNode?)
    requires ListOk(m, xs, owner, first, last)
    ensures xs == [] <==> first == null
    ensures xs != [] ==> first == xs[0] && last == xs[|xs| - 1]
  {
  }

  lemma {:induction false} NoList(m: Memory, owner: InfoNode)
    ensures ListOk(m, [], owner, null, null)
  {
  }

  lemma {:induction false} EndsOfNone(m: Memory, owner: InfoNode, first: InfoNode?, last: InfoNode?)
    requires ListOk(m, [], owner, first, last)
    ensures first == null && last == null
  {
  }

  lemma {:induction false} ListMember(m: Memory, xs: seq<InfoNode>, owner: InfoNode, first: InfoNode?, last: InfoNode?,
                                      i: nat)
    requires ListOk(m, xs, owner, first, last) && i < |xs|
    ensures xs[i] in m && m[xs[i]].parent == owner
    ensures m[xs[i]].previous == (if i == 0 then null else xs[i - 1])
    ensures m[xs[i]].next == (if i == |xs| - 1 then null else xs[i + 1])
    ensures first == xs[i] <==> i == 0
    ensures last == xs[i] <==> i == |xs| - 1
  {
    assert LinkOk(m, xs, i, owner);
  }

  /** Put the children of a node in its place and destroy it. A leaf or a root stays as it is. */
  method ReplaceWithChildren(x: InfoNode, ghost nodes: set<InfoNode>, ghost forest: Forest,
                             ghost i: nat) returns (replaced: nat)
    requires Linked(Snapshot(nodes), forest) && x in nodes && x in forest.children && x in forest.aside
    requires x.parent != null ==>
               && x.parent in nodes && x.parent in forest.children && x.parent != x
               && i < |forest.children[x.parent]| && forest.children[x.parent][i] == x
    requires forest.children[x] != [] ==> forest.aside[x] == []
    modifies nodes
    ensures replaced == if old(x.parent) == null || forest.children[x] == [] then 0 else 1
    ensures replaced == 0 ==> Snapshot(nodes) == old(Snapshot(nodes))
    ensures replaced == 1 ==>
              && old(x.parent) in nodes && old(x.parent) in forest.children && i < |forest.children[old(x.parent)]|
              && forest.children[old(x.parent)][i] == x
              && Linked(Snapshot(nodes - {x}), WithoutNode(forest, old(x.parent), i))
              && x.firstChild == x.lastChild == x.next == x.previous == x.parent == null
  {
    hide Linked, NodeOk, ListOk, WithoutNode, Snapshot, SplicedMemory, Reparented, SpliceReady,
         WithParent, WithPrevious, WithNext, WithFirstChild, WithLastChild, WithDegree;
    ghost var m := Snapshot(nodes);
    SnapshotAt(nodes, x);
    NodeParts(m, forest, x);
    ListEnds(m, forest.children[x], x, x.firstChild, x.lastChild);
    if x.firstChild == null || x.parent == null {
      return 0;
    }
    var p := x.parent;
    ghost var kids := forest.children[x];
    var deltaChildDegree := ReparentChildren(x, p, nodes, kids);
    ghost var m1 := Snapshot(nodes);
    SplicedMemoryLinked(m, m1, forest, p, i);
    SplicePointers(x, p, deltaChildDegree, nodes);
    SnapshotLess(nodes, x);
    ghost var m' := Snapshot(nodes - {x});

    // The node is let go of and destroyed
    x.firstChild, x.lastChild, x.next, x.previous, x.parent := null, null, null, null, null;
    assert Snapshot(nodes - {x}) == m';
    return 1;
  }

  /** Set the parent of every child of x, and count them. */
  method ReparentChildren(x: InfoNode, p: InfoNode, ghost nodes: set<InfoNode>, ghost kids: seq<InfoNode>)
    returns (deltaChildDegree: nat)
    requires x in nodes && kids != []
    requires ListOk(Snapshot(nodes), kids, x, x.firstChild, x.lastChild)
    modifies nodes
    ensures deltaChildDegree == |kids| && Reparented(old(Snapshot(nodes)), Snapshot(nodes), kids, p, |kids|)
    ensures x.firstChild == old(x.firstChild)
  {
    hide ListOk, Snapshot, WithParent, Reparented;
    ghost var m := Snapshot(nodes);
    SnapshotAt(nodes, x);
    ListEnds(m, kids, x, x.firstChild, x.lastChild);
    ListParents(m, kids, x, x.firstChild, x.lastChild);
    ReparentStart(m, kids, p);
    deltaChildDegree := 0;
    var child := x.firstChild;
    while child != null
      invariant deltaChildDegree <= |kids|
      invariant child == if deltaChildDegree < |kids| then kids[deltaChildDegree] else null
      invariant Reparented(m, Snapshot(nodes), kids, p, deltaChildDegree)
      invariant x.firstChild == old(x.firstChild)
      decreases |kids| - deltaChildDegree
    {
      ListMember(m, kids, x, m[x].firstChild, m[x].lastChild, deltaChildDegree);
      ReparentNext(m, Snapshot(nodes), kids, p, deltaChildDegree);
      SnapshotAt(nodes, child);
      child.SetParent(p, nodes);
      child := child.next;
      deltaChildDegree := deltaChildDegree + 1;
    }
  }

  /** Hook the children into the list of the parent. */
  method SplicePointers(x: InfoNode, p: InfoNode, deltaChildDegree: nat, ghost nodes: set<InfoNode>)
    requires SpliceReady(Snapshot(nodes), x, p, deltaChildDegree)
    modifies nodes
    ensures SpliceReady(old(Snapshot(nodes)), x, p, deltaChildDegree)
    ensures Snapshot(nodes) == SplicedMemory(old(Snapshot(nodes)), x, p, deltaChildDegree)
  {
    hide Snapshot, WithParent, WithPrevious, WithNext, WithFirstChild, WithLastChild, WithDegree;
    SnapshotAt(nodes, x);
    SnapshotAt(nodes, p);
    p.SetChildDegree(p.childDegree + deltaChildDegree - 1, nodes);
    x.firstChild.SetPrevious(x.previous, nodes);
    x.lastChild.SetNext(x.next, nodes);
    if p.firstChild == x {
      p.SetFirstChild(x.firstChild, nodes);
    } else {
      x.previous.SetNext(x.firstChild, nodes);
    }
    if p.lastChild == x {
      p.SetLastChild(x.lastChild, nodes);
    } else {
      x.next.SetPrevious(x.lastChild, nodes);
    }
  }

  lemma {:induction false} SnapshotLess(nodes: set<InfoNode>, x: InfoNode)
    requires x in nodes
    ensures Snapshot(nodes) - {x} == Snapshot(nodes - {x})
  {
  }

  lemma {:induction false} ReparentStart(m: Memory, kids: seq<InfoNode>, p: InfoNode)
    ensures Reparented(m, m, kids, p, 0)
  {
  }
}
