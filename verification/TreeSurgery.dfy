/** Surgery on whole trees: flattening levels of modules, and putting subtrees aside and back. The
    leaves are what must survive it, every one of them, once, and in order. */
module TreeSurgery {
  import opened InfoTrees

  /** The tree that the lists of a forest spell out. */
  datatype Tree = Tree(node: InfoNode, children: seq<Tree>)
  {
    predicate IsLeaf() { children == [] }
  }

  function Roots(trees: seq<Tree>): (r: seq<InfoNode>)
    ensures |r| == |trees| && forall i :: 0 <= i < |trees| ==> r[i] == trees[i].node
  {
    seq(|trees|, i requires 0 <= i < |trees| => trees[i].node)
  }

  ghost predicate Shows(forest: Forest, t: Tree)
  {
    && t.node in forest.children && t.node in forest.aside && forest.children[t.node] == Roots(t.children)
    && forall c :: c in t.children ==> Shows(forest, c)
  }

  // ----- Nodes and leaves -----

  function NodesOf(t: Tree): set<InfoNode>
  {
    {t.node} + NodesOfAll(t.children)
  }

  function NodesOfAll(trees: seq<Tree>): set<InfoNode>
  {
    if trees == [] then {} else NodesOfAll(trees[..|trees| - 1]) + NodesOf(trees[|trees| - 1])
  }

  /** No node occurs twice. */
  ghost predicate Distinct(t: Tree)
  {
    t.node !in NodesOfAll(t.children) && DistinctAll(t.children)
  }

  ghost predicate DistinctAll(trees: seq<Tree>)
  {
    trees == []
    || (var n := |trees| - 1;
        DistinctAll(trees[..n]) && Distinct(trees[n]) && NodesOfAll(trees[..n]) !! NodesOf(trees[n]))
  }

  function Leaves(t: Tree): seq<InfoNode>
  {
    if t.IsLeaf() then [t.node] else LeavesAll(t.children)
  }

  function LeavesAll(trees: seq<Tree>): seq<InfoNode>
  {
    if trees == [] then [] else LeavesAll(trees[..|trees| - 1]) + Leaves(trees[|trees| - 1])
  }

  /** Depth of the deepest leaf. */
  function Height(t: Tree): nat
  {
    if t.IsLeaf() then 0 else 1 + HeightAll(t.children)
  }

  function HeightAll(trees: seq<Tree>): nat
  {
    if trees == [] then 0
    else
      var a, b := HeightAll(trees[..|trees| - 1]), Height(trees[|trees| - 1]);
      if a > b then a else b
  }

  // ----- One level of modules taken out -----

  /** Children of a module instead of the module; leaves stay. */
  function Lifted(trees: seq<Tree>): seq<Tree>
  {
    if trees == [] then []
    else
      var last := trees[|trees| - 1];
      Lifted(trees[..|trees| - 1]) + (if last.IsLeaf() then [last] else last.children)
  }

  function NumModules(trees: seq<Tree>): nat
  {
    if trees == [] then 0 else NumModules(trees[..|trees| - 1]) + (if trees[|trees| - 1].IsLeaf() then 0 else 1)
  }

  /** The modules among the trees. */
  function ModulesOf(trees: seq<Tree>): set<InfoNode>
  {
    if trees == [] then {}
    else
      var last := trees[|trees| - 1];
      ModulesOf(trees[..|trees| - 1]) + (if last.IsLeaf() then {} else {last.node})
  }

  lemma {:induction false} LeavesAppend(a: seq<Tree>, b: seq<Tree>)
    ensures LeavesAll(a + b) == LeavesAll(a) + LeavesAll(b)
  {
    if b == [] {
      assert a + b == a;
    } else {
      var n := |b| - 1;
      assert (a + b)[..|a + b| - 1] == a + b[..n];
      LeavesAppend(a, b[..n]);
    }
  }

  lemma {:induction false} HeightAppend(a: seq<Tree>, b: seq<Tree>)
    ensures HeightAll(a + b) == if HeightAll(a) > HeightAll(b) then HeightAll(a) else HeightAll(b)
  {
    if b == [] {
      assert a + b == a;
    } else {
      var n := |b| - 1;
      assert (a + b)[..|a + b| - 1] == a + b[..n];
      HeightAppend(a, b[..n]);
    }
  }

  /** Lifting keeps the leaves in order and takes one off the height, down to one. */
  lemma {:induction false} LiftedMeans(trees: seq<Tree>)
    ensures LeavesAll(Lifted(trees)) == LeavesAll(trees)
    ensures HeightAll(Lifted(trees)) == if HeightAll(trees) == 0 then 0 else HeightAll(trees) - 1
    ensures NumModules(trees) == 0 <==> HeightAll(trees) == 0
    ensures NumModules(trees) == 0 ==> Lifted(trees) == trees
  {
    if trees != [] {
      var n := |trees| - 1;
      var last := trees[n];
      LiftedMeans(trees[..n]);
      if last.IsLeaf() {
        LeavesAppend(Lifted(trees[..n]), [last]);
        HeightAppend(Lifted(trees[..n]), [last]);
        assert [last][..0] == [];
      } else {
        LeavesAppend(Lifted(trees[..n]), last.children);
        HeightAppend(Lifted(trees[..n]), last.children);
      }
    }
  }

  lemma {:induction false} OnlyLeaves(trees: seq<Tree>)
    ensures HeightAll(trees) == 0 ==> Roots(trees) == LeavesAll(trees)
    ensures HeightAll(trees) == 0 <==> forall i :: 0 <= i < |trees| ==> trees[i].IsLeaf()
  {
    if trees != [] {
      var n := |trees| - 1;
      OnlyLeaves(trees[..n]);
      assert Roots(trees) == Roots(trees[..n]) + [trees[n].node];
      if HeightAll(trees) == 0 {
        forall i | 0 <= i < |trees| ensures trees[i].IsLeaf() {
          if i < n { assert trees[..n][i].IsLeaf(); } else { assert Height(trees[n]) == 0; }
        }
      }
    }
  }

  // ----- Trees and forests -----

  lemma {:induction false} NodesIncludes(trees: seq<Tree>, i: nat)
    requires i < |trees|
    ensures NodesOf(trees[i]) <= NodesOfAll(trees) && trees[i].node in NodesOfAll(trees)
  {
    if i < |trees| - 1 { NodesIncludes(trees[..|trees| - 1], i); }
  }

  /** A tree is still shown if no list of its nodes changed. */
  lemma {:induction false} ShowsKept(forest: Forest, forest': Forest, t: Tree)
    requires Shows(forest, t)
    requires forall n :: n in NodesOf(t) && n in forest.children ==>
               n in forest'.children && n in forest'.aside && forest'.children[n] == forest.children[n]
    ensures Shows(forest', t)
  {
    forall c | c in t.children ensures Shows(forest', c) {
      var i :| 0 <= i < |t.children| && t.children[i] == c;
      NodesIncludes(t.children, i);
      ShowsKept(forest, forest', c);
    }
  }

  lemma {:induction false} ShownNodes(forest: Forest, t: Tree)
    requires Shows(forest, t)
    ensures forall n :: n in NodesOf(t) ==> n in forest.children && n in forest.aside
    decreases t
  {
    ShownNodesAll(forest, t.children);
  }

  lemma {:induction false} ShownNodesAll(forest: Forest, trees: seq<Tree>)
    requires forall c :: c in trees ==> Shows(forest, c)
    ensures forall n :: n in NodesOfAll(trees) ==> n in forest.children && n in forest.aside
    decreases trees
  {
    if trees != [] {
      var n := |trees| - 1;
      ShownNodesAll(forest, trees[..n]);
      ShownNodes(forest, trees[n]);
    }
  }

  lemma {:induction false} NodesAppend(a: seq<Tree>, b: seq<Tree>)
    ensures NodesOfAll(a + b) == NodesOfAll(a) + NodesOfAll(b)
  {
    if b == [] {
      assert a + b == a;
    } else {
      var n := |b| - 1;
      assert (a + b)[..|a + b| - 1] == a + b[..n];
      NodesAppend(a, b[..n]);
    }
  }

  lemma {:induction false} DistinctAppend(a: seq<Tree>, b: seq<Tree>)
    ensures DistinctAll(a + b) <==> DistinctAll(a) && DistinctAll(b) && NodesOfAll(a) !! NodesOfAll(b)
  {
    if b == [] {
      assert a + b == a;
    } else {
      var n := |b| - 1;
      assert (a + b)[..|a + b| - 1] == a + b[..n];
      DistinctAppend(a, b[..n]);
      NodesAppend(a, b[..n]);
    }
  }

  /** Lifting drops exactly the modules and repeats nothing. */
  lemma {:induction false} LiftedDistinct(trees: seq<Tree>)
    requires DistinctAll(trees)
    ensures DistinctAll(Lifted(trees)) && ModulesOf(trees) <= NodesOfAll(trees)
    ensures NodesOfAll(Lifted(trees)) == NodesOfAll(trees) - ModulesOf(trees)
  {
    if trees != [] {
      var n := |trees| - 1;
      var last, rest := trees[n], trees[..n];
      LiftedDistinct(rest);
      if last.IsLeaf() {
        DistinctAppend(Lifted(rest), [last]);
        NodesAppend(Lifted(rest), [last]);
        OneTree(last);
      } else {
        DistinctAppend(Lifted(rest), last.children);
        NodesAppend(Lifted(rest), last.children);
      }
    }
  }

  lemma {:induction false} OneTree(t: Tree)
    ensures NodesOfAll([t]) == NodesOf(t) && (Distinct(t) ==> DistinctAll([t]))
  {
    assert [t][..0] == [];
  }

  // ----- Taking one level out, on the pointers -----

  /** The list of x while its first j children have been dealt with. */
  ghost function MidList(trees: seq<Tree>, j: nat): seq<InfoNode>
    requires j <= |trees|
  {
    Roots(Lifted(trees[..j])) + Roots(trees[j..])
  }

  /** The forest while the first j children of x have been dealt with. */
  ghost predicate MidForest(forest: Forest, forest': Forest, x: InfoNode, trees: seq<Tree>, j: nat)
  {
    && j <= |trees| && x in forest'.children
    && forest'.children.Keys == forest.children.Keys - ModulesOf(trees[..j])
    && forest'.aside == forest.aside - ModulesOf(trees[..j])
    && forest'.children[x] == MidList(trees, j)
    && forall n :: n in forest'.children && n != x && n in forest.children ==> forest'.children[n] == forest.children[n]
  }

  lemma {:induction false} MidStart(forest: Forest, x: InfoNode, trees: seq<Tree>)
    requires x in forest.children && forest.children[x] == Roots(trees)
    ensures MidForest(forest, forest, x, trees, 0)
  {
    assert trees[..0] == [] && trees[0..] == trees;
    assert Roots([]) + Roots(trees) == Roots(trees);
  }

  /** Where child j is in the list, and what the list is after it. */
  lemma {:induction false} MidAt(trees: seq<Tree>, j: nat)
    requires j < |trees|
    ensures var i := |Lifted(trees[..j])|;
            && i < |MidList(trees, j)| && MidList(trees, j)[i] == trees[j].node
            && (j + 1 < |trees| ==> i + 1 < |MidList(trees, j)| && MidList(trees, j)[i + 1] == trees[j + 1].node)
            && (j + 1 == |trees| ==> i + 1 == |MidList(trees, j)|)
            && MidList(trees, j + 1)
               == if trees[j].IsLeaf() then MidList(trees, j) else Spliced(MidList(trees, j), i,
                   Roots(trees[j].children))
    ensures ModulesOf(trees[..j + 1]) == ModulesOf(trees[..j]) + (if trees[j].IsLeaf() then {} else {trees[j].node})
  {
    var done, next := Lifted(trees[..j]), if trees[j].IsLeaf() then [trees[j]] else trees[j].children;
    assert trees[..j + 1][..j] == trees[..j];
    assert Lifted(trees[..j + 1]) == done + next;
    assert ModulesOf(trees[..j + 1]) == ModulesOf(trees[..j]) + (if trees[j].IsLeaf() then {} else {trees[j].node});
    MidSplit(trees, j);
    hide MidList, Lifted, ModulesOf, Spliced;
    assert Roots(done + next) == Roots(done) + Roots(next);
    SplicedAt(Roots(done), trees[j].node, Roots(next), Roots(trees[j + 1..]));
    if trees[j].IsLeaf() {
      assert Roots(next) == [trees[j].node];
    }
  }

  /** The list while the first j children have been dealt with, and after one more, split at child j. */
  lemma {:induction false} MidSplit(trees: seq<Tree>, j: nat)
    requires j < |trees|
    ensures Roots(trees[j..]) == [trees[j].node] + Roots(trees[j + 1..])
    ensures MidList(trees, j) == Roots(Lifted(trees[..j])) + ([trees[j].node] + Roots(trees[j + 1..]))
    ensures MidList(trees, j + 1) == Roots(Lifted(trees[..j + 1])) + Roots(trees[j + 1..])
    ensures j + 1 < |trees| ==> |Roots(trees[j + 1..])| > 0 && Roots(trees[j + 1..])[0] == trees[j + 1].node
    ensures j + 1 == |trees| ==> Roots(trees[j + 1..]) == []
  {
    hide Lifted;
    assert Roots(trees[j..]) == [trees[j].node] + Roots(trees[j + 1..]);
  }

  lemma {:induction false} SplicedAt(before: seq<InfoNode>, x: InfoNode, kids: seq<InfoNode>, after: seq<InfoNode>)
    ensures Spliced(before + ([x] + after), |before|, kids) == before + kids + after
    ensures kids == [x] ==> before + ([x] + after) == before + kids + after
    ensures (before + ([x] + after))[|before|] == x
    ensures after != [] ==> (before + ([x] + after))[|before| + 1] == after[0]
  {
  }

  lemma {:induction false} MidNext(forest: Forest, forest': Forest, x: InfoNode, trees: seq<Tree>, j: nat)
    requires MidForest(forest, forest', x, trees, j) && j < |trees| && trees[j].node != x
    requires trees[j].node in forest.children && forest.children[trees[j].node] == Roots(trees[j].children)
    requires trees[j].node in forest'.children
    ensures trees[j].IsLeaf() ==> MidForest(forest, forest', x, trees, j + 1)
    ensures !trees[j].IsLeaf() ==>
              && |Lifted(trees[..j])| < |forest'.children[x]|
                 && forest'.children[x][|Lifted(trees[..j])|] == trees[j].node
              && MidForest(forest, WithoutNode(forest', x, |Lifted(trees[..j])|), x, trees, j + 1)
  {
    hide MidList, Lifted, ModulesOf, Spliced, Roots;
    MidAt(trees, j);
    if !trees[j].IsLeaf() {
      var i, n := |Lifted(trees[..j])|, trees[j].node;
      var next := WithoutNode(forest', x, i);
      assert next.children.Keys == forest'.children.Keys - {n};
      assert next.aside == forest.aside - ModulesOf(trees[..j + 1]);
    }
  }

  lemma {:induction false} ModulesIncluded(trees: seq<Tree>)
    ensures ModulesOf(trees) <= NodesOfAll(trees)
  {
    if trees != [] { ModulesIncluded(trees[..|trees| - 1]); }
  }

  lemma {:induction false} NotYetReplaced(trees: seq<Tree>, j: nat)
    requires DistinctAll(trees) && j < |trees|
    ensures trees[j].node !in ModulesOf(trees[..j])
  {
    var n := |trees| - 1;
    if j < n {
      NotYetReplaced(trees[..n], j);
      assert trees[..n][..j] == trees[..j];
    } else {
      ModulesIncluded(trees[..n]);
    }
  }

  lemma {:induction false} ShownChild(forest: Forest, t: Tree, j: nat)
    requires Shows(forest, t) && Distinct(t) && j < |t.children|
    ensures var c := t.children[j];
            && c.node != t.node && c.node !in ModulesOf(t.children[..j])
            && c.node in forest.children && c.node in forest.aside && forest.children[c.node] == Roots(c.children)
  {
    assert t.children[j] in t.children && Shows(forest, t.children[j]);
    NodesIncludes(t.children, j);
    NotYetReplaced(t.children, j);
  }

  /** Child j is still where it was, with its own children. */
  lemma {:induction false} MidChild(m: Memory, forest: Forest, forest': Forest, t: Tree, j: nat)
    requires Shows(forest, t) && Distinct(t) && j < |t.children|
    requires MidForest(forest, forest', t.node, t.children, j) && Linked(m, forest')
    ensures var c, i := t.children[j], |Lifted(t.children[..j])|;
            && c.node != t.node && c.node in m && c.node in forest'.children && c.node in forest'.aside
            && c.node in forest.children && c.node in forest.aside
            && forest'.children[c.node] == forest.children[c.node] == Roots(c.children)
            && forest'.aside[c.node] == forest.aside[c.node]
            && t.node in m && t.node in forest'.children
            && i < |forest'.children[t.node]| && forest'.children[t.node][i] == c.node
            && m[c.node].parent == t.node
            && (j + 1 < |t.children| ==> m[c.node].next == t.children[j + 1].node)
  {
    hide Lifted, MidList, ModulesOf, NodesOfAll, NodesOf, Shows, Distinct, Spliced, Linked, ListOk, Roots;
    var c, i := t.children[j], |Lifted(t.children[..j])|;
    ShownChild(forest, t, j);
    MidAt(t.children, j);
    LinkedKeys(m, forest');
    NodeParts(m, forest', t.node);
    ListMember(m, forest'.children[t.node], t.node, m[t.node].firstChild, m[t.node].lastChild, i);
  }

  /** Replace every child of x that is a module with its children. */
  method ReplaceChildrenWithGrandChildren(x: InfoNode, ghost nodes: set<InfoNode>, ghost forest: Forest, ghost t: Tree)
    returns (numChildrenReplaced: nat, ghost nodes': set<InfoNode>, ghost forest': Forest)
    requires Linked(Snapshot(nodes), forest) && x == t.node && Shows(forest, t) && Distinct(t)
    requires forall c :: c in t.children && !c.IsLeaf() ==> c.node in forest.aside && forest.aside[c.node] == []
    modifies nodes
    ensures numChildrenReplaced == NumModules(t.children)
    ensures nodes' == nodes - ModulesOf(t.children) && Linked(Snapshot(nodes'), forest')
    ensures MidForest(forest, forest', x, t.children, |t.children|)
  {
    hide Linked, Snapshot, MidForest, Shows, Distinct, WithoutNode, Lifted, Roots, ModulesOf;
    ghost var trees := t.children;
    ghost var m := Snapshot(nodes);
    ShownRoot(m, forest, t);
    SnapshotAt(nodes, x);
    MidStart(forest, x, trees);
    ModulesNone();
    assert trees[..0] == [];
    nodes', forest', numChildrenReplaced := nodes, forest, 0;
    if x.firstChild == null {
      return;
    }
    var nodeIt: InfoNode? := x.firstChild;
    var numOriginalChildrenLeft := x.childDegree;
    ghost var j := 0;
    while numOriginalChildrenLeft != 0
      invariant 0 <= j <= |trees| && numOriginalChildrenLeft == |trees| - j
      invariant nodes' == nodes - ModulesOf(trees[..j]) && Linked(Snapshot(nodes'), forest')
      invariant MidForest(forest, forest', x, trees, j)
      invariant numChildrenReplaced == NumModules(trees[..j])
      invariant j < |trees| ==> nodeIt == trees[j].node
    {
      var n: InfoNode := nodeIt;
      MidChild(Snapshot(nodes'), forest, forest', t, j);
      MidNext(forest, forest', x, trees, j);
      NextModule(trees, j);
      SnapshotAt(nodes', n);
      nodeIt := n.next;
      assert trees[j] in trees;
      ghost var i := |Lifted(trees[..j])|;
      var replaced := ReplaceWithChildren(n, nodes', forest', i);
      numChildrenReplaced := numChildrenReplaced + replaced;
      if replaced == 1 {
        nodes', forest' := nodes' - {n}, WithoutNode(forest', x, i);
      }
      j := j + 1;
      numOriginalChildrenLeft := numOriginalChildrenLeft - 1;
    }
    assert trees[..|trees|] == trees;
  }

  lemma {:induction false} ShownRoot(m: Memory, forest: Forest, t: Tree)
    requires Linked(m, forest) && Shows(forest, t)
    ensures t.node in m && m[t.node].childDegree == |t.children|
    ensures if t.children == [] then m[t.node].firstChild == null else m[t.node].firstChild == t.children[0].node
    ensures t.node in forest.children && forest.children[t.node] == Roots(t.children)
  {
    NodeParts(m, forest, t.node);
    ListEnds(m, forest.children[t.node], t.node, m[t.node].firstChild, m[t.node].lastChild);
  }

  lemma {:induction false} ModulesNone()
    ensures ModulesOf([]) == {} && NumModules([]) == 0
  {
  }

  lemma {:induction false} NextModule(trees: seq<Tree>, j: nat)
    requires j < |trees|
    ensures ModulesOf(trees[..j + 1]) == ModulesOf(trees[..j]) + (if trees[j].IsLeaf() then {} else {trees[j].node})
    ensures NumModules(trees[..j + 1]) == NumModules(trees[..j]) + (if trees[j].IsLeaf() then 0 else 1)
  {
    assert trees[..j + 1][..j] == trees[..j];
  }

  // ----- All modules taken out -----

  /** Every lifted tree was shown before, and keeps clear of what was replaced. */
  lemma {:induction false} LiftedShown(forest: Forest, trees: seq<Tree>, c: Tree)
    requires (forall s :: s in trees ==> Shows(forest, s)) && c in Lifted(trees)
    ensures Shows(forest, c) && NodesOf(c) <= NodesOfAll(Lifted(trees))
  {
    var n := |trees| - 1;
    var last, rest := trees[n], Lifted(trees[..n]);
    assert Shows(forest, last);
    var more := if last.IsLeaf() then [last] else last.children;
    NodesAppend(rest, more);
    if c in rest {
      LiftedShown(forest, trees[..n], c);
    } else {
      assert c in more;
      var i :| 0 <= i < |more| && more[i] == c;
      NodesIncludes(more, i);
    }
  }

  /** After a pass the forest shows the lifted tree. */
  lemma {:induction false} LiftedTree(forest: Forest, forest': Forest, t: Tree)
    requires Shows(forest, t) && Distinct(t)
    requires MidForest(forest, forest', t.node, t.children, |t.children|)
    ensures var t' := Tree(t.node, Lifted(t.children));
            && Shows(forest', t') && Distinct(t') && NodesOf(t') == NodesOf(t) - ModulesOf(t.children)
            && t.node !in ModulesOf(t.children)
  {
    var trees, x := t.children, t.node;
    assert trees[..|trees|] == trees && trees[|trees|..] == [];
    LiftedDistinct(trees);
    assert MidList(trees, |trees|) == Roots(Lifted(trees));
    ShownNodes(forest, t);
    forall c | c in Lifted(trees) ensures Shows(forest', c) {
      LiftedShown(forest, trees, c);
      ShowsKept(forest, forest', c);
    }
    assert x in forest'.aside;
  }

  /** Modules of a tree have nothing put aside. */
  ghost predicate NothingAside(forest: Forest, t: Tree)
  {
    && (!t.IsLeaf() ==> t.node in forest.aside && forest.aside[t.node] == [])
    && forall c :: c in t.children ==> NothingAside(forest, c)
  }

  lemma {:induction false} NothingAsideKept(forest: Forest, forest': Forest, t: Tree)
    requires NothingAside(forest, t) && Shows(forest', t)
    requires forall n :: n in forest'.aside ==> n in forest.aside && forest'.aside[n] == forest.aside[n]
    ensures NothingAside(forest', t)
  {
    forall c | c in t.children ensures NothingAside(forest', c) {
      NothingAsideKept(forest, forest', c);
    }
  }

  lemma {:induction false} NothingAsideLifted(forest: Forest, trees: seq<Tree>, c: Tree)
    requires (forall s :: s in trees ==> NothingAside(forest, s)) && c in Lifted(trees)
    ensures NothingAside(forest, c)
  {
    var n := |trees| - 1;
    var last := trees[n];
    assert NothingAside(forest, last);
    if c in Lifted(trees[..n]) { NothingAsideLifted(forest, trees[..n], c); }
  }

  lemma {:induction false} LiftedAside(forest: Forest, forest': Forest, t: Tree)
    requires NothingAside(forest, t) && Shows(forest', Tree(t.node, Lifted(t.children)))
    requires MidForest(forest, forest', t.node, t.children, |t.children|)
    ensures NothingAside(forest', Tree(t.node, Lifted(t.children)))
  {
    var x, lifted := t.node, Lifted(t.children);
    forall c | c in lifted ensures NothingAside(forest', c) {
      NothingAsideLifted(forest, t.children, c);
      NothingAsideKept(forest, forest', c);
    }
    if t.children == [] { assert lifted == []; }
  }

  method HasModuleChild(root: InfoNode, ghost nodes: set<InfoNode>, ghost forest: Forest,
                            ghost t: Tree) returns (found: bool)
    requires Linked(Snapshot(nodes), forest) && root == t.node && Shows(forest, t)
    ensures found <==> HeightAll(t.children) > 0
  {
    hide Linked, Snapshot, ListOk;
    ghost var m, trees := Snapshot(nodes), t.children;
    ShownRoot(m, forest, t);
    SnapshotAt(nodes, root);
    OnlyLeaves(trees);
    var child := root.firstChild;
    ghost var j := 0;
    while child != null
      invariant 0 <= j <= |trees|
      invariant child == if j < |trees| then trees[j].node else null
      invariant forall i :: 0 <= i < j ==> trees[i].IsLeaf()
      decreases |trees| - j
    {
      assert trees[j] in trees;
      ShownRoot(m, forest, trees[j]);
      SnapshotAt(nodes, child);
      if child.firstChild != null {
        return true;
      }
      ShownSibling(m, forest, t, j);
      child := child.next;
      j := j + 1;
    }
    return false;
  }

  lemma {:induction false} ShownSibling(m: Memory, forest: Forest, t: Tree, j: nat)
    requires Linked(m, forest) && Shows(forest, t) && j < |t.children|
    ensures t.children[j].node in m
    ensures m[t.children[j].node].next == if j + 1 < |t.children| then t.children[j + 1].node else null
  {
    hide Linked, ListOk, Shows;
    ShownRoot(m, forest, t);
    NodeParts(m, forest, t.node);
    ListMember(m, forest.children[t.node], t.node, m[t.node].firstChild, m[t.node].lastChild, j);
  }

  /** Flatten the tree until every child of the root is a leaf. That takes one pass for every level
      of modules on the deepest path, whatever the depth of the others, and leaves the root with
      exactly the leaves, in order. */
  method RemoveModules(root: InfoNode, ghost nodes: set<InfoNode>, ghost forest: Forest, ghost t: Tree)
    returns (numLevelsDeleted: nat, ghost nodes': set<InfoNode>, ghost forest': Forest)
    requires Linked(Snapshot(nodes), forest) && root == t.node && Shows(forest, t) && Distinct(t)
              && NothingAside(forest, t)
    modifies nodes
    ensures numLevelsDeleted == HeightAll(t.children)
    ensures nodes' <= nodes && root in nodes' && Linked(Snapshot(nodes'), forest')
    ensures root in forest'.children && forest'.children[root] == LeavesAll(t.children)
    ensures forall leaf :: leaf in LeavesAll(t.children) ==>
              leaf in nodes' && leaf in forest'.children && forest'.children[leaf] == []
    ensures forall n :: n in forest'.aside ==> n in forest.aside && forest'.aside[n] == forest.aside[n]
  {
    hide Linked, Snapshot, Shows, Distinct, NothingAside, MidForest, Lifted, LeavesAll, HeightAll;
    nodes', forest', numLevelsDeleted := nodes, forest, 0;
    ghost var now := t;
    ShownRoot(Snapshot(nodes), forest, t);
    var more := HasModuleChild(root, nodes', forest', now);
    while more
      invariant nodes' <= nodes && Linked(Snapshot(nodes'), forest')
      invariant now.node == root && Shows(forest', now) && Distinct(now) && NothingAside(forest', now)
      invariant HeightAll(now.children) + numLevelsDeleted == HeightAll(t.children)
      invariant LeavesAll(now.children) == LeavesAll(t.children)
      invariant more <==> HeightAll(now.children) > 0
      invariant forall n :: n in forest'.aside ==> n in forest.aside && forest'.aside[n] == forest.aside[n]
      decreases HeightAll(now.children)
    {
      LiftedMeans(now.children);
      AsideOfChildren(forest', now);
      ghost var before := forest';
      var replaced;
      replaced, nodes', forest' := ReplaceChildrenWithGrandChildren(root, nodes', forest', now);
      AsideFrom(before, forest', now);
      LiftedTree(before, forest', now);
      LiftedAside(before, forest', now);
      now := Tree(root, Lifted(now.children));
      numLevelsDeleted := numLevelsDeleted + 1;
      more := HasModuleChild(root, nodes', forest', now);
    }
    AllLeaves(Snapshot(nodes'), forest', now);
  }

  lemma {:induction false} AsideOfChildren(forest: Forest, t: Tree)
    requires NothingAside(forest, t)
    ensures forall c :: c in t.children && !c.IsLeaf() ==> c.node in forest.aside && forest.aside[c.node] == []
  {
    forall c | c in t.children && !c.IsLeaf() ensures c.node in forest.aside && forest.aside[c.node] == [] {
      assert NothingAside(forest, c);
    }
  }

  lemma {:induction false} AsideFrom(forest: Forest, forest': Forest, t: Tree)
    requires MidForest(forest, forest', t.node, t.children, |t.children|)
    ensures forall n :: n in forest'.aside ==> n in forest.aside && forest'.aside[n] == forest.aside[n]
  {
  }

  lemma {:induction false} AllLeaves(m: Memory, forest: Forest, t: Tree)
    requires Linked(m, forest) && Shows(forest, t) && HeightAll(t.children) == 0
    ensures t.node in m && t.node in forest.children && forest.children[t.node] == LeavesAll(t.children)
    ensures forall leaf :: leaf in LeavesAll(t.children) ==>
              leaf in m && leaf in forest.children && forest.children[leaf] == []
  {
    OnlyLeaves(t.children);
    forall leaf | leaf in LeavesAll(t.children) ensures leaf in forest.children && forest.children[leaf] == [] {
      assert leaf in Roots(t.children);
      var i :| 0 <= i < |t.children| && t.children[i].node == leaf;
      assert t.children[i] in t.children && Shows(forest, t.children[i]);
      assert |forest.children[leaf]| == 0;
    }
  }

  // ----- All modules below the top modules taken out -----

  /** The trees with one level of modules taken out of each of the first j. */
  function LiftedEach(trees: seq<Tree>, j: nat): (r: seq<Tree>)
    requires j <= |trees|
    ensures |r| == |trees| && Roots(r) == Roots(trees)
  {
    seq(|trees|, i requires 0 <= i < |trees| =>
      if i < j then Tree(trees[i].node, Lifted(trees[i].children)) else trees[i])
  }

  /** The same top modules over the same leaves. */
  ghost predicate SameTops(a: seq<Tree>, b: seq<Tree>)
  {
    && |a| == |b| && LeavesAll(a) == LeavesAll(b)
    && forall i :: 0 <= i < |a| ==> a[i].node == b[i].node && LeavesAll(a[i].children) == LeavesAll(b[i].children)
  }

  /** The levels of modules below the top modules. */
  function SubLevels(trees: seq<Tree>): nat
  {
    if HeightAll(trees) == 0 then 0 else HeightAll(trees) - 1
  }

  lemma {:induction false} LiftedSome(trees: seq<Tree>)
    ensures Lifted(trees) == [] <==> trees == []
  {
    if trees != [] {
      var last := trees[|trees| - 1];
      assert (if last.IsLeaf() then [last] else last.children) != [];
    }
  }

  /** Lifting the children of one tree keeps its leaves, and takes off a level if there are modules below it. */
  lemma {:induction false} LiftedOne(t: Tree)
    ensures var t' := Tree(t.node, Lifted(t.children));
            && Leaves(t') == Leaves(t) && LeavesAll(t'.children) == LeavesAll(t.children)
            && Height(t') == if Height(t) <= 1 then Height(t) else Height(t) - 1
  {
    LiftedMeans(t.children);
    LiftedSome(t.children);
  }

  lemma {:induction false} LiftedHeights(trees: seq<Tree>)
    ensures LeavesAll(LiftedEach(trees, |trees|)) == LeavesAll(trees)
    ensures HeightAll(LiftedEach(trees, |trees|))
         == if HeightAll(trees) <= 1 then HeightAll(trees) else HeightAll(trees) - 1
  {
    hide Height, Leaves, Lifted;
    if trees != [] {
      var n := |trees| - 1;
      LiftedHeights(trees[..n]);
      LiftedOne(trees[n]);
      assert LiftedEach(trees, |trees|)[..n] == LiftedEach(trees[..n], n);
    }
  }

  /** Lifting each keeps the top modules with their leaves and takes off a level below them. */
  lemma {:induction false} LiftedEachMeans(trees: seq<Tree>)
    ensures SameTops(LiftedEach(trees, |trees|), trees)
    ensures SubLevels(LiftedEach(trees, |trees|)) == if SubLevels(trees) == 0 then 0 else SubLevels(trees) - 1
  {
    hide LeavesAll, HeightAll, Lifted;
    LiftedHeights(trees);
    forall i | 0 <= i < |trees|
      ensures LeavesAll(LiftedEach(trees, |trees|)[i].children) == LeavesAll(trees[i].children)
    {
      LiftedOne(trees[i]);
    }
  }

  lemma {:induction false} DistinctReplaced(trees: seq<Tree>, j: nat, t: Tree)
    requires DistinctAll(trees) && j < |trees| && Distinct(t) && NodesOf(t) <= NodesOf(trees[j])
    ensures DistinctAll(trees[j := t]) && NodesOfAll(trees[j := t]) <= NodesOfAll(trees)
  {
    var n := |trees| - 1;
    if j < n {
      DistinctReplaced(trees[..n], j, t);
      assert trees[j := t][..n] == trees[..n][j := t];
    } else {
      assert trees[j := t][..n] == trees[..n];
    }
  }

  lemma {:induction false} Apart(trees: seq<Tree>, i: nat, j: nat)
    requires DistinctAll(trees) && i < j < |trees|
    ensures NodesOf(trees[i]) !! NodesOf(trees[j])
  {
    var n := |trees| - 1;
    if j < n {
      Apart(trees[..n], i, j);
    } else {
      NodesIncludes(trees[..n], i);
    }
  }

  /** A pass over the children of one top module leaves the others alone. */
  lemma {:induction false} OtherShown(forest: Forest, forest': Forest, t: Tree, i: nat, j: nat)
    requires Shows(forest, t) && Distinct(t) && i < |t.children| && j < |t.children| && i != j
    requires MidForest(forest, forest', t.children[j].node, t.children[j].children, |t.children[j].children|)
    ensures Shows(forest', t.children[i])
  {
    var other, c := t.children[i], t.children[j];
    if i < j { Apart(t.children, i, j); } else { Apart(t.children, j, i); }
    ModulesIncluded(c.children);
    assert c.children[..|c.children|] == c.children;
    assert other in t.children;
    ShownNodes(forest, other);
    ShowsKept(forest, forest', other);
  }

  /** After a pass over the children of one top module the forest shows the tree with those lifted. */
  lemma {:induction false} LiftedTop(forest: Forest, forest': Forest, t: Tree, j: nat)
    requires Shows(forest, t) && Distinct(t) && NothingAside(forest, t) && j < |t.children|
    requires MidForest(forest, forest', t.children[j].node, t.children[j].children, |t.children[j].children|)
    ensures var c := t.children[j];
            var t' := Tree(t.node, t.children[j := Tree(c.node, Lifted(c.children))]);
            Shows(forest', t') && Distinct(t') && NothingAside(forest', t')
  {
    var c := t.children[j];
    var c' := Tree(c.node, Lifted(c.children));
    var trees := t.children[j := c'];
    assert c in t.children;
    AsideFrom(forest, forest', c);
    DistinctAt(t.children, j);
    LiftedTree(forest, forest', c);
    LiftedAside(forest, forest', c);
    DistinctReplaced(t.children, j, c');
    forall s | s in trees ensures Shows(forest', s) && NothingAside(forest', s) {
      var i :| 0 <= i < |trees| && trees[i] == s;
      if i != j {
        OtherShown(forest, forest', t, i, j);
        assert t.children[i] in t.children;
        NothingAsideKept(forest, forest', s);
      }
    }
    RootStays(forest, forest', t, j);
    assert Roots(trees) == Roots(t.children);
  }

  lemma {:induction false} DistinctAt(trees: seq<Tree>, j: nat)
    requires DistinctAll(trees) && j < |trees|
    ensures Distinct(trees[j])
  {
    if j < |trees| - 1 { DistinctAt(trees[..|trees| - 1], j); }
  }

  lemma {:induction false} RootStays(forest: Forest, forest': Forest, t: Tree, j: nat)
    requires Shows(forest, t) && Distinct(t) && j < |t.children|
    requires MidForest(forest, forest', t.children[j].node, t.children[j].children, |t.children[j].children|)
    ensures t.node in forest'.children && t.node in forest'.aside && forest'.children[t.node] == Roots(t.children)
  {
    var c := t.children[j];
    NodesIncludes(t.children, j);
    ModulesIncluded(c.children);
    assert c.children[..|c.children|] == c.children;
  }

  /** One level of modules out of every top module, one after the other. */
  method ReplaceSubModules(root: InfoNode, ghost nodes: set<InfoNode>, ghost forest: Forest, ghost t: Tree)
    returns (ghost nodes': set<InfoNode>, ghost forest': Forest)
    requires Linked(Snapshot(nodes), forest) && root == t.node && Shows(forest, t) && Distinct(t)
              && NothingAside(forest, t)
    modifies nodes
    ensures nodes' <= nodes && Linked(Snapshot(nodes'), forest')
    ensures var t' := Tree(root, LiftedEach(t.children, |t.children|));
            Shows(forest', t') && Distinct(t') && NothingAside(forest', t')
    ensures forall n :: n in forest'.aside ==> n in forest.aside && forest'.aside[n] == forest.aside[n]
  {
    hide Linked, Snapshot, Shows, Distinct, NothingAside, MidForest, Lifted, ModulesOf;
    ghost var trees := t.children;
    nodes', forest' := nodes, forest;
    ShownRoot(Snapshot(nodes), forest, t);
    SnapshotAt(nodes, root);
    assert LiftedEach(trees, 0) == trees;
    var top := root.firstChild;
    ghost var j := 0;
    while top != null
      invariant 0 <= j <= |trees| && nodes' <= nodes && Linked(Snapshot(nodes'), forest')
      invariant Shows(forest', Tree(root, LiftedEach(trees, j))) && Distinct(Tree(root, LiftedEach(trees, j)))
      invariant NothingAside(forest', Tree(root, LiftedEach(trees, j)))
      invariant top == if j < |trees| then trees[j].node else null
      invariant forall n :: n in forest'.aside ==> n in forest.aside && forest'.aside[n] == forest.aside[n]
      decreases |trees| - j
    {
      ghost var now, before := Tree(root, LiftedEach(trees, j)), forest';
      TopParts(forest', now, j);
      var replaced;
      replaced, nodes', forest' := ReplaceChildrenWithGrandChildren(top, nodes', forest', trees[j]);
      AsideFrom(before, forest', trees[j]);
      LiftedTop(before, forest', now, j);
      assert LiftedEach(trees, j + 1) == now.children[j := Tree(top, Lifted(trees[j].children))];
      ghost var next := Tree(root, LiftedEach(trees, j + 1));
      ShownSibling(Snapshot(nodes'), forest', next, j);
      SnapshotAt(nodes', top);
      top := top.next;
      j := j + 1;
    }
  }

  lemma {:induction false} TopParts(forest: Forest, t: Tree, j: nat)
    requires Shows(forest, t) && Distinct(t) && NothingAside(forest, t) && j < |t.children|
    ensures Shows(forest, t.children[j]) && Distinct(t.children[j]) && NothingAside(forest, t.children[j])
    ensures forall c :: c in t.children[j].children && !c.IsLeaf() ==>
              c.node in forest.aside && forest.aside[c.node] == []
  {
    assert t.children[j] in t.children;
    DistinctAt(t.children, j);
    AsideOfChildren(forest, t.children[j]);
  }

  method AnyModuleHasModuleChild(root: InfoNode, ghost nodes: set<InfoNode>, ghost forest: Forest,
                                 ghost t: Tree) returns (found: bool)
    requires Linked(Snapshot(nodes), forest) && root == t.node && Shows(forest, t)
    ensures found <==> SubLevels(t.children) > 0
  {
    hide Linked, Snapshot, ListOk, Shows;
    ghost var m, trees := Snapshot(nodes), t.children;
    ShownRoot(m, forest, t);
    SnapshotAt(nodes, root);
    var top := root.firstChild;
    ghost var j := 0;
    while top != null
      invariant 0 <= j <= |trees|
      invariant top == if j < |trees| then trees[j].node else null
      invariant forall i :: 0 <= i < j ==> HeightAll(trees[i].children) == 0
      decreases |trees| - j
    {
      ChildShown(forest, t, j);
      var here := HasModuleChild(top, nodes, forest, trees[j]);
      if here {
        DeepAt(trees, j);
        return true;
      }
      ShownSibling(m, forest, t, j);
      SnapshotAt(nodes, top);
      top := top.next;
      j := j + 1;
    }
    NotDeep(trees);
    return false;
  }

  lemma {:induction false} ChildShown(forest: Forest, t: Tree, j: nat)
    requires Shows(forest, t) && j < |t.children|
    ensures Shows(forest, t.children[j])
  {
    assert t.children[j] in t.children;
  }

  lemma {:induction false} DeepAt(trees: seq<Tree>, j: nat)
    requires j < |trees|
    ensures HeightAll(trees) >= Height(trees[j])
  {
    if j < |trees| - 1 { DeepAt(trees[..|trees| - 1], j); }
  }

  lemma {:induction false} NotDeep(trees: seq<Tree>)
    requires forall i :: 0 <= i < |trees| ==> HeightAll(trees[i].children) == 0
    ensures SubLevels(trees) == 0
  {
    if trees != [] {
      NotDeep(trees[..|trees| - 1]);
      assert Height(trees[|trees| - 1]) <= 1;
    }
  }

  /** Flatten the tree to two levels. That takes one pass for every level of modules below the top modules on the
      deepest path, and leaves the root its top modules, each with exactly its leaves, in order. */
  method RemoveSubModules(root: InfoNode, ghost nodes: set<InfoNode>, ghost forest: Forest, ghost t: Tree)
    returns (numLevelsDeleted: nat, ghost nodes': set<InfoNode>, ghost forest': Forest)
    requires Linked(Snapshot(nodes), forest) && root == t.node && Shows(forest, t) && Distinct(t)
              && NothingAside(forest, t)
    modifies nodes
    ensures numLevelsDeleted == if HeightAll(t.children) == 0 then 0 else HeightAll(t.children) - 1
    ensures nodes' <= nodes && root in nodes' && Linked(Snapshot(nodes'), forest')
    ensures root in forest'.children && forest'.children[root] == Roots(t.children)
    ensures forall i :: 0 <= i < |t.children| ==>
              && t.children[i].node in nodes' && t.children[i].node in forest'.children
              && forest'.children[t.children[i].node] == LeavesAll(t.children[i].children)
    ensures forall leaf :: leaf in LeavesAll(t.children) ==>
              leaf in nodes' && leaf in forest'.children && forest'.children[leaf] == []
    ensures forall n :: n in forest'.aside ==> n in forest.aside && forest'.aside[n] == forest.aside[n]
  {
    hide Linked, Snapshot, Shows, Distinct, NothingAside, Lifted, LeavesAll, HeightAll, LiftedEach;
    nodes', forest', numLevelsDeleted := nodes, forest, 0;
    ghost var now := t;
    var more := AnyModuleHasModuleChild(root, nodes', forest', now);
    while more
      invariant nodes' <= nodes && Linked(Snapshot(nodes'), forest')
      invariant now.node == root && Shows(forest', now) && Distinct(now) && NothingAside(forest', now)
      invariant SubLevels(now.children) + numLevelsDeleted == SubLevels(t.children)
      invariant SameTops(now.children, t.children)
      invariant more <==> SubLevels(now.children) > 0
      invariant forall n :: n in forest'.aside ==> n in forest.aside && forest'.aside[n] == forest.aside[n]
      decreases SubLevels(now.children)
    {
      LiftedEachMeans(now.children);
      nodes', forest' := ReplaceSubModules(root, nodes', forest', now);
      now := Tree(root, LiftedEach(now.children, |now.children|));
      numLevelsDeleted := numLevelsDeleted + 1;
      more := AnyModuleHasModuleChild(root, nodes', forest', now);
    }
    TwoLevels(Snapshot(nodes'), forest', now);
    assert Roots(now.children) == Roots(t.children);
  }

  lemma {:induction false} TwoLevels(m: Memory, forest: Forest, t: Tree)
    requires Linked(m, forest) && Shows(forest, t) && SubLevels(t.children) == 0
    ensures t.node in m && t.node in forest.children && forest.children[t.node] == Roots(t.children)
    ensures forall i :: 0 <= i < |t.children| ==>
              && t.children[i].node in m && t.children[i].node in forest.children
              && forest.children[t.children[i].node] == LeavesAll(t.children[i].children)
    ensures forall leaf :: leaf in LeavesAll(t.children) ==>
              leaf in m && leaf in forest.children && forest.children[leaf] == []
  {
    hide Linked;
    ShownRoot(m, forest, t);
    forall i | 0 <= i < |t.children|
      ensures AllOk(m, forest, t.children[i])
    {
      ChildShown(forest, t, i);
      DeepAt(t.children, i);
      AllLeaves(m, forest, t.children[i]);
    }
    forall leaf | leaf in LeavesAll(t.children)
      ensures leaf in m && leaf in forest.children && forest.children[leaf] == []
    {
      var i := LeafUnder(t.children, leaf);
      assert AllOk(m, forest, t.children[i]);
    }
  }

  /** A module of leaves, or a leaf. */
  ghost predicate AllOk(m: Memory, forest: Forest, t: Tree)
  {
    && t.node in m && t.node in forest.children && forest.children[t.node] == LeavesAll(t.children)
    && forall leaf :: leaf in LeavesAll(t.children) ==>
         leaf in m && leaf in forest.children && forest.children[leaf] == []
  }

  lemma {:induction false} LeafUnder(trees: seq<Tree>, leaf: InfoNode) returns (i: nat)
    requires leaf in LeavesAll(trees)
    ensures i < |trees| && leaf in Leaves(trees[i])
  {
    var n := |trees| - 1;
    if leaf in Leaves(trees[n]) {
      i := n;
    } else {
      i := LeafUnder(trees[..n], leaf);
    }
  }

  // ----- One node in the place of the children -----

  datatype OneNodeResult = OneNode(node: InfoNode) | NoChildren | NoGrandchildren | DifferentNumber(node: InfoNode)

  /** A forest without one node, or with one more that has no lists yet. */
  ghost function Less(forest: Forest, x: InfoNode): Forest
  {
    Forest(forest.children - {x}, forest.aside - {x})
  }

  ghost function More(forest: Forest, x: InfoNode, children: seq<InfoNode>, aside: seq<InfoNode>): Forest
  {
    Forest(forest.children[x := children], forest.aside[x := aside])
  }

  lemma {:induction false} LinkedLess(m: Memory, forest: Forest, x: InfoNode)
    requires Linked(m, forest) && x in m
    requires forall n :: n in m ==>
              n in forest.children && n in forest.aside && x !in forest.children[n] && x !in forest.aside[n]
    ensures Linked(m - {x}, Less(forest, x))
  {
    hide ListOk, Linked, NodeOk;
    LinkedKeys(m, forest);
    forall n | n in m && n != x ensures NodeOk(m - {x}, n, Less(forest, x)) {
      LinkedNode(m, forest, n);
      NodeParts(m, forest, n);
      NodeKept(m, m - {x}, n, forest, Less(forest, x));
    }
    LinkedFrom(m - {x}, Less(forest, x));
  }

  /** A node joins whose two lists are in order by themselves. */
  lemma {:induction false} LinkedMore(m: Memory, m': Memory, forest: Forest, x: InfoNode, children: seq<InfoNode>,
                                      aside: seq<InfoNode>)
    requires Linked(m, forest) && x !in m && x in m' && m' - {x} == m && m'.Keys == m.Keys + {x}
    requires ListOk(m', children, x, m'[x].firstChild, m'[x].lastChild) && m'[x].childDegree == |children|
    requires ListOk(m', aside, x, m'[x].collapsedFirstChild, m'[x].collapsedLastChild)
    requires forall c :: c in children ==> c !in aside
    ensures Linked(m', More(forest, x, children, aside))
  {
    hide ListOk, Linked, NodeOk;
    LinkedKeys(m, forest);
    var forest' := More(forest, x, children, aside);
    assert forall n :: n in m ==> m[n] == m'[n];
    forall n | n in m' ensures NodeOk(m', n, forest') {
      if n == x {
        NodeFrom(m', x, forest');
      } else {
        LinkedNode(m, forest, n);
        NodeParts(m, forest, n);
        NodeKept(m, m', n, forest, forest');
      }
    }
    LinkedFrom(m', forest');
  }

  /** The first j children have moved to the new node; those that follow are still linked as they were. */
  ghost predicate MovedUpTo(m: Memory, m': Memory, forest: Forest, forest': Forest, xs: seq<InfoNode>,
                            middle: InfoNode, j: nat)
  {
    && j <= |xs| && Linked(m', forest')
    && middle in m' && middle in forest.children && forest' == forest.(children := forest.children[middle := xs[..j]])
    && m'.Keys == m.Keys
    && forall k :: j <= k < |xs| ==> SameLinks(m, m', xs[k])
  }

  lemma {:induction false} MovedNext(m: Memory, m': Memory, forest: Forest, forest': Forest, xs: seq<InfoNode>,
                                     middle: InfoNode, j: nat)
    requires MovedUpTo(m, m', forest, forest', xs, middle, j) && j < |xs| && NoDuplicates(xs) && middle !in xs
    requires forall n :: n in m ==> n in forest.children && n in forest.aside
                                    && forall k :: 0 <= k < |xs| ==>
                                       xs[k] !in forest.children[n] && xs[k] !in forest.aside[n]
    ensures xs[j] in m' && xs[j] != middle
    ensures forall n :: n in m' ==> n in forest'.children && n in forest'.aside
                                    && xs[j] !in forest'.children[n] && xs[j] !in forest'.aside[n]
    ensures AddReady(m', middle, xs[j]) && Linked(AddedMemory(m', middle, xs[j]), WithChild(forest', middle, xs[j])) ==>
              MovedUpTo(m, AddedMemory(m', middle, xs[j]), forest, WithChild(forest', middle, xs[j]), xs, middle, j + 1)
  {
    hide Linked, ListOk, AddedMemory, AddReady;
    assert SameLinks(m, m', xs[j]);
    assert xs[..j + 1] == xs[..j] + [xs[j]];
    if AddReady(m', middle, xs[j]) && Linked(AddedMemory(m', middle, xs[j]), WithChild(forest', middle, xs[j])) {
      var m2 := AddedMemory(m', middle, xs[j]);
      NodeParts(m', forest', middle);
      ListEnds(m', xs[..j], middle, m'[middle].firstChild, m'[middle].lastChild);
      AddReadyParts(m', middle, xs[j]);
      forall k | j + 1 <= k < |xs| ensures SameLinks(m, m2, xs[k]) {
        assert SameLinks(m, m', xs[k]);
        assert j > 0 ==> m'[middle].lastChild == xs[j - 1];
        AddedMemoryAt(m', middle, xs[j], xs[k]);
      }
    }
  }

  lemma {:induction false} AddReadyParts(m: Memory, p: InfoNode, child: InfoNode)
    requires AddReady(m, p, child)
    ensures m[p].firstChild == null <==> m[p].lastChild == null
  {
  }

  /** Move all children of x to a new node. */
  method MoveChildren(x: InfoNode, middleNode: InfoNode, ghost nodes: set<InfoNode>, ghost forest: Forest,
                      ghost xs: seq<InfoNode>)
    returns (ghost forest': Forest)
    requires Linked(Snapshot(nodes), forest) && x !in nodes && middleNode in nodes
    requires ListOk(Snapshot(nodes), xs, x, x.firstChild, x.lastChild) && x.childDegree == |xs| && xs != []
              && middleNode !in xs
    requires forall n :: n in nodes ==> n in forest.children && n in forest.aside
                                        && forall k :: 0 <= k < |xs| ==>
                                           xs[k] !in forest.children[n] && xs[k] !in forest.aside[n]
    requires forest.children[middleNode] == []
    modifies nodes
    ensures forest' == forest.(children := forest.children[middleNode := xs])
    ensures Linked(Snapshot(nodes), forest')
  {
    hide Linked, Snapshot, ListOk, MovedUpTo, AddedMemory, AddReady, SameLinks, NoDuplicates;
    ghost var m := Snapshot(nodes);
    forest' := forest;
    ListEnds(m, xs, x, x.firstChild, x.lastChild);
    ListParents(m, xs, x, x.firstChild, x.lastChild);
    MovedStart(m, forest, xs, middleNode);
    var nodeIt: InfoNode? := x.firstChild;
    var numOriginalChildrenLeft := x.childDegree;
    ghost var j := 0;
    while numOriginalChildrenLeft != 0
      invariant 0 <= j <= |xs| && numOriginalChildrenLeft == |xs| - j
      invariant MovedUpTo(m, Snapshot(nodes), forest, forest', xs, middleNode, j)
      invariant j < |xs| ==> nodeIt == xs[j]
    {
      var n: InfoNode := nodeIt;
      ghost var m' := Snapshot(nodes);
      MovedLinked(m, m', forest, forest', xs, middleNode, j);
      ListMember(m, xs, x, x.firstChild, x.lastChild, j);
      MovedNext(m, m', forest, forest', xs, middleNode, j);
      SnapshotAt(nodes, n);
      nodeIt := n.next;
      AddChild(middleNode, n, nodes, forest');
      forest' := WithChild(forest', middleNode, n);
      j := j + 1;
      numOriginalChildrenLeft := numOriginalChildrenLeft - 1;
    }
    MovedAll(m, Snapshot(nodes), forest, forest', xs, middleNode);
  }

  lemma {:induction false} MovedStart(m: Memory, forest: Forest, xs: seq<InfoNode>, middle: InfoNode)
    requires Linked(m, forest) && middle in m && middle in forest.children && forest.children[middle] == []
    requires forall c :: c in xs ==> c in m
    ensures MovedUpTo(m, m, forest, forest, xs, middle, 0)
  {
    hide Linked;
    assert forest.children[middle := []] == forest.children;
    assert xs[..0] == [];
    forall k | 0 <= k < |xs| ensures SameLinks(m, m, xs[k]) {
      assert xs[k] in xs;
    }
  }

  lemma {:induction false} MovedLinked(m: Memory, m': Memory, forest: Forest, forest': Forest, xs: seq<InfoNode>,
                                       middle: InfoNode, j: nat)
    requires MovedUpTo(m, m', forest, forest', xs, middle, j) && j < |xs|
    ensures Linked(m', forest') && m'.Keys == m.Keys && xs[j] in m && xs[j] in m' && m'[xs[j]].next == m[xs[j]].next
  {
    assert SameLinks(m, m', xs[j]);
  }

  lemma {:induction false} MovedAll(m: Memory, m': Memory, forest: Forest, forest': Forest, xs: seq<InfoNode>,
                                    middle: InfoNode)
    requires MovedUpTo(m, m', forest, forest', xs, middle, |xs|)
    ensures Linked(m', forest') && forest' == forest.(children := forest.children[middle := xs])
  {
    assert xs[..|xs|] == xs;
  }

  /** The forest in which x has one child, which has all the children x had. */
  ghost function OneNodeForest(forest: Forest, x: InfoNode, middle: InfoNode, xs: seq<InfoNode>): Forest
  {
    Forest(forest.children[x := [middle]][middle := xs], forest.aside[middle := []])
  }

  lemma {:induction false} OneNodeShown(forest: Forest, t: Tree, middle: InfoNode)
    requires Shows(forest, t) && Distinct(t) && middle !in forest.children
    ensures Shows(OneNodeForest(forest, t.node, middle, Roots(t.children)), Tree(middle, t.children))
    ensures Distinct(Tree(middle, t.children))
  {
    var forest' := OneNodeForest(forest, t.node, middle, Roots(t.children));
    ShownNodes(forest, t);
    forall c | c in t.children ensures Shows(forest', c) {
      var i :| 0 <= i < |t.children| && t.children[i] == c;
      NodesIncludes(t.children, i);
      ShowsKept(forest, forest', c);
    }
  }

  /** Put one new node between a root and its children, and take their level out. A root with one child
      has it already; without children or without grandchildren there is nothing to put there; and if
      some of the children are leaves the numbers do not match. */
  method ReplaceChildrenWithOneNode(x: InfoNode, ghost nodes: set<InfoNode>, ghost forest: Forest, ghost t: Tree)
    returns (result: OneNodeResult, ghost nodes': set<InfoNode>, ghost forest': Forest)
    requires Linked(Snapshot(nodes), forest) && x == t.node && Shows(forest, t) && Distinct(t)
    requires forest.aside[x] == [] && AsideClear(forest, t.children)
    requires forall n :: n in nodes ==>
              n in forest.children && n in forest.aside && x !in forest.children[n] && x !in forest.aside[n]
    modifies nodes
    ensures Linked(Snapshot(nodes'), forest')
    ensures result.NoChildren? <==> t.children == []
    ensures result.NoGrandchildren? <==> |t.children| > 1 && t.children[0].IsLeaf()
    ensures |t.children| == 1 ==> result == OneNode(t.children[0].node)
    ensures |t.children| <= 1 || result.NoGrandchildren? ==> nodes' == nodes && forest' == forest
    ensures |t.children| > 1 && !t.children[0].IsLeaf() ==>
              && (result.OneNode? || result.DifferentNumber?) && result.node !in nodes
              && (result.OneNode? <==> NumModules(t.children) == |t.children|)
              && Shows(forest', Tree(x, [Tree(result.node, Lifted(t.children))]))
  {
    hide Linked, Snapshot, Shows, Distinct, ListOk, NoDuplicates, Lifted, MidForest, NodeOk;
    ghost var m, xs := Snapshot(nodes), Roots(t.children);
    nodes', forest' := nodes, forest;
    ShownRoot(m, forest, t);
    SnapshotAt(nodes, x);
    if x.childDegree == 1 {
      return OneNode(x.firstChild), nodes, forest;
    }
    if x.firstChild == null {
      return NoChildren, nodes, forest;
    }
    FirstShown(m, forest, t);
    SnapshotAt(nodes, x.firstChild);
    if x.firstChild.firstChild == null {
      return NoGrandchildren, nodes, forest;
    }
    var middleNode := new InfoNode();
    var d0 := x.childDegree;
    forest' := PutBetween(x, middleNode, nodes, forest, xs);
    nodes' := nodes + {middleNode};
    LinkedKeys(m, forest);
    OneNodeShown(forest, t, middleNode);
    ghost var between := forest';
    var d1;
    d1, nodes', forest' := ReplaceChildrenWithGrandChildren(middleNode, nodes', forest', Tree(middleNode, t.children));
    OneNodeResultShown(forest, between, forest', t, middleNode);
    if d1 != d0 {
      return DifferentNumber(middleNode), nodes', forest';
    }
    return OneNode(middleNode), nodes', forest';
  }

  ghost predicate AsideClear(forest: Forest, trees: seq<Tree>)
  {
    forall c :: c in trees && !c.IsLeaf() ==> c.node in forest.aside && forest.aside[c.node] == []
  }

  lemma {:induction false} FirstShown(m: Memory, forest: Forest, t: Tree)
    requires Linked(m, forest) && Shows(forest, t) && t.children != []
    ensures var c := t.children[0]; c.node in m && (m[c.node].firstChild == null <==> c.IsLeaf())
  {
    assert t.children[0] in t.children;
    ShownRoot(m, forest, t.children[0]);
  }

  lemma {:induction false} OneNodeResultShown(forest: Forest, between: Forest, forest': Forest, t: Tree,
                                              middle: InfoNode)
    requires between == OneNodeForest(forest, t.node, middle, Roots(t.children)) && middle != t.node
              && middle !in forest.children
    requires Shows(forest, t) && Distinct(t)
    requires MidForest(between, forest', middle, t.children, |t.children|)
    ensures Shows(forest', Tree(t.node, [Tree(middle, Lifted(t.children))]))
  {
    OneNodeShown(forest, t, middle);
    LiftedTree(between, forest', Tree(middle, t.children));
    LiftedDistinct(t.children);
    assert t.children[..|t.children|] == t.children;
    assert t.node !in ModulesOf(t.children);
    var whole := Tree(t.node, [Tree(middle, Lifted(t.children))]);
    assert Roots(whole.children) == [middle];
    assert forest'.children[t.node] == [middle];
  }

  /** Hang the new node under x and all children of x under the new node. */
  method PutBetween(x: InfoNode, middleNode: InfoNode, ghost nodes: set<InfoNode>, ghost forest: Forest,
                    ghost xs: seq<InfoNode>)
    returns (ghost forest': Forest)
    requires Linked(Snapshot(nodes), forest) && x in nodes && middleNode !in nodes
    requires x in forest.children && x in forest.aside && forest.children[x] == xs != [] && forest.aside[x] == []
    requires forall n :: n in nodes ==>
              n in forest.children && n in forest.aside && x !in forest.children[n] && x !in forest.aside[n]
    requires middleNode.firstChild == middleNode.lastChild == null && middleNode.childDegree == 0
    requires middleNode.collapsedFirstChild == middleNode.collapsedLastChild == null
    modifies nodes, middleNode
    ensures forest' == OneNodeForest(forest, x, middleNode, xs) && Linked(Snapshot(nodes + {middleNode}), forest')
  {
    hide Linked, Snapshot, ListOk, NoDuplicates, NodeOk;
    ghost var m := Snapshot(nodes);
    NodeParts(m, forest, x);
    SnapshotAt(nodes, x);
    EndsOfNone(m, x, x.collapsedFirstChild, x.collapsedLastChild);
    JoinNew(x, middleNode, nodes, forest, xs);
    ghost var inner := nodes - {x} + {middleNode};
    ghost var forest1 := MoveChildren(x, middleNode, inner, More(Less(forest, x), middleNode, [], []), xs);
    NewIsFree(m, forest, x, middleNode, xs);
    OneNodeIs(forest, x, middleNode, xs);
    hide OneNodeForest, Less, More;
    HangNew(x, middleNode, inner, forest1);
    assert nodes + {middleNode} == inner + {x};
    forest' := OneNodeForest(forest, x, middleNode, xs);
  }

  ghost function HungForest(forest: Forest, x: InfoNode, middle: InfoNode, xs: seq<InfoNode>): Forest
  {
    var forest1 := More(Less(forest, x), middle, [], []);
    forest1.(children := forest1.children[middle := xs])
  }

  lemma {:induction false} OneNodeIs(forest: Forest, x: InfoNode, middle: InfoNode, xs: seq<InfoNode>)
    requires x in forest.children && x in forest.aside && forest.aside[x] == [] && middle != x
    ensures WithChild(More(HungForest(forest, x, middle, xs), x, [], []), x, middle)
              == OneNodeForest(forest, x, middle, xs)
  {
    assert [] + [middle] == [middle];
    OutAndIn(forest.children, x, middle, [], xs, [], [middle]);
    OutAndIn(forest.aside, x, middle, [], [], [], []);
    assert forest.aside[x := []] == forest.aside;
  }

  /** Two keys of a map written several times hold what was written last. */
  lemma {:induction false} OutAndIn(c: map<InfoNode, seq<InfoNode>>, x: InfoNode, middle: InfoNode, a: seq<InfoNode>,
                                    b: seq<InfoNode>,
                                    d: seq<InfoNode>, e: seq<InfoNode>)
    requires x in c && middle != x
    ensures (c - {x})[middle := a][middle := b][x := d][x := e] == c[x := e][middle := b]
    ensures (c - {x})[middle := a][x := d] == c[x := d][middle := a]
  {
  }

  /** Nobody has the new node in a list. */
  lemma {:induction false} NewIsFree(m: Memory, forest: Forest, x: InfoNode, middle: InfoNode, xs: seq<InfoNode>)
    requires Linked(m, forest) && x in m && middle !in m && x in forest.children && forest.children[x] == xs
    ensures forall n :: n in m - {x} || n == middle ==>
              var f := HungForest(forest, x, middle, xs);
              n in f.children && n in f.aside && middle !in f.children[n] && middle !in f.aside[n]
  {
    hide Linked, ListOk, NodeOk;
    LinkedKeys(m, forest);
    NodeParts(m, forest, x);
    forall n | n in m ensures middle !in forest.children[n] && middle !in forest.aside[n] {
      NodeParts(m, forest, n);
    }
  }

  /** With x set aside, the new node is linked like all others. */
  lemma {:induction false} JoinNew(x: InfoNode, middle: InfoNode, nodes: set<InfoNode>, forest: Forest,
                                   xs: seq<InfoNode>)
    requires Linked(Snapshot(nodes), forest) && x in nodes && middle !in nodes
    requires x in forest.children && x in forest.aside && forest.children[x] == xs && forest.aside[x] == []
    requires forall n :: n in nodes ==>
              n in forest.children && n in forest.aside && x !in forest.children[n] && x !in forest.aside[n]
    requires middle.firstChild == middle.lastChild == null && middle.childDegree == 0
    requires middle.collapsedFirstChild == middle.collapsedLastChild == null
    ensures var inner, forest1 := nodes - {x} + {middle}, More(Less(forest, x), middle, [], []);
            && Linked(Snapshot(inner), forest1) && middle !in xs
            && ListOk(Snapshot(inner), xs, x, x.firstChild, x.lastChild)
            && forall n :: n in inner ==> n in forest1.children && n in forest1.aside
                                          && forall k :: 0 <= k < |xs| ==>
                                             xs[k] !in forest1.children[n] && xs[k] !in forest1.aside[n]
  {
    hide Linked, Snapshot, ListOk, NodeOk;
    var m, inner := Snapshot(nodes), nodes - {x} + {middle};
    LinkedKeys(m, forest);
    NodeParts(m, forest, x);
    SnapshotAt(nodes, x);
    ListParents(m, xs, x, x.firstChild, x.lastChild);
    LinkedLess(m, forest, x);
    InnerMemory(nodes, x, middle);
    SnapshotAt(inner, middle);
    NoList(Snapshot(inner), middle);
    LinkedMore(m - {x}, Snapshot(inner), Less(forest, x), middle, [], []);
    ListKept(m, Snapshot(inner), xs, x, x.firstChild, x.lastChild);
    forall n, k | n in nodes && n != x && 0 <= k < |xs| ensures xs[k] !in forest.children[n]
        && xs[k] !in forest.aside[n] {
      NodeParts(m, forest, n);
      assert xs[k] in xs;
    }
  }

  lemma {:induction false} InnerMemory(nodes: set<InfoNode>, x: InfoNode, middle: InfoNode)
    requires x in nodes && middle !in nodes
    ensures var inner := nodes - {x} + {middle};
            && Snapshot(inner) - {middle} == Snapshot(nodes) - {x}
            && (forall c :: c in nodes && c != x ==> SameLinks(Snapshot(nodes), Snapshot(inner), c))
  {
  }

  /** Release the children of x, which have moved, and make the new node its only child. */
  method HangNew(x: InfoNode, middleNode: InfoNode, ghost inner: set<InfoNode>, ghost forest: Forest)
    requires Linked(Snapshot(inner), forest) && x !in inner && middleNode in inner
    requires x.collapsedFirstChild == x.collapsedLastChild == null
    requires forall n :: n in inner ==> n in forest.children && n in forest.aside
                                        && middleNode !in forest.children[n] && middleNode !in forest.aside[n]
    modifies inner, x
    ensures Linked(Snapshot(inner + {x}), WithChild(More(forest, x, [], []), x, middleNode))
  {
    hide Linked, Snapshot, ListOk, NodeOk, AddedMemory, AddReady;
    ghost var m, all := Snapshot(inner), inner + {x};
    x.firstChild, x.lastChild, x.childDegree := null, null, 0;
    assert Snapshot(inner) == m;
    LinkedKeys(m, forest);
    OuterMemory(inner, x);
    SnapshotAt(all, x);
    NoList(Snapshot(all), x);
    LinkedMore(m, Snapshot(all), forest, x, [], []);
    AddChild(x, middleNode, all, More(forest, x, [], []));
  }

  lemma {:induction false} OuterMemory(inner: set<InfoNode>, x: InfoNode)
    requires x !in inner
    ensures Snapshot(inner + {x}) - {x} == Snapshot(inner)
  {
  }
}
