/** Evaluating a tree codebook by codebook, and why that gives the tracked codelength.

    A module of leaf nodes is scored in normalised form, dividing by its total flow; the objective
    keeps the expanded form. The two agree by the law of the logarithm, which is asked for here as
    a property of the code function. */
module TreeCodelength {
  import opened Sums
  import opened FlowNetwork
  import opened MapEquations
  import opened Logarithms
  import opened BiasedMapEquations
  import opened Partitions
  import opened Consolidation
  import opened LinkTables
  import opened SearchSteps
  import opened TwoLevelSearch

  // ----- One codebook -----

  /** Length of a codebook with words used at the given rates and an exit word. */
  function Expanded(code: Code, rates: seq<real>, exitFlow: real): real
  {
    code.PLogP(exitFlow + Sum(rates)) - Sum(Logs(code, rates)) - code.PLogP(exitFlow)
  }

  /** Codelength of a module of leaf nodes, from the flow of its children. */
  method CalcCodelengthOnModuleOfLeafNodes(code: Code, parent: FlowData, childFlows: seq<real>, ghost log: real -> real)
    returns (length: real)
    requires IsPLogP(code, log)
    requires forall i :: 0 <= i < |childFlows| ==> childFlows[i] >= 0.0
    requires parent.exitFlow >= 0.0 && Sum(childFlows) == parent.flow
    ensures parent.flow + parent.exitFlow < NEGLIGIBLE ==> length == 0.0
    ensures parent.flow + parent.exitFlow == 0.0 || parent.flow + parent.exitFlow >= NEGLIGIBLE ==>
              length == Expanded(code, childFlows, parent.exitFlow)
  {
    hide IsPLogP, Used, Code.PLogP, NormalisedWord, Sum, Logs;
    var parentFlow, parentExit := parent.flow, parent.exitFlow;
    var totalParentFlow := parentFlow + parentExit;
    if totalParentFlow < NEGLIGIBLE {
      if totalParentFlow == 0.0 {
        PLogPOf(code, log, 1.0);
        NothingToCode(code, childFlows, parentExit);
      }
      return 0.0;
    }
    var indexLength := 0.0;
    ghost var l := log(totalParentFlow);
    NothingUsed(code, totalParentFlow, l);
    assert childFlows[..0] == [];
    for i := 0 to |childFlows|
      invariant Used(code, totalParentFlow, l, indexLength, Sum(childFlows[..i]), Sum(Logs(code, childFlows[..i])))
    {
      ChildAdded(code, log, totalParentFlow, l, indexLength, childFlows, i);
      indexLength := indexLength - NormalisedWord(code, childFlows[i], totalParentFlow);
    }
    assert childFlows[..|childFlows|] == childFlows;
    WordAdded(code, log, totalParentFlow, l, indexLength, Sum(childFlows), Sum(Logs(code, childFlows)), parentExit);
    indexLength := indexLength - NormalisedWord(code, parentExit, totalParentFlow);
    PLogPOf(code, log, totalParentFlow);
    AllUsed(code, totalParentFlow, l, indexLength, Sum(Logs(code, childFlows)) + code.PLogP(parentExit));
    assert parentExit + Sum(childFlows) == totalParentFlow;
    indexLength := indexLength * totalParentFlow;
    return indexLength;
  }

  function NormalisedWord(code: Code, x: real, total: real): real
    requires total > 0.0
  {
    code.PLogP(x / total)
  }

  /** The normalised length of words of total rate sum, scaled back. */
  ghost predicate Used(code: Code, total: real, l: real, length: real, sum: real, logs: real)
  {
    total * length == sum * l - logs
  }

  lemma {:induction false} WordAdded(code: Code, log: real -> real, total: real, l: real, length: real, sum: real,
                                     logs: real, x: real)
    requires Used(code, total, l, length, sum, logs)
    requires IsPLogP(code, log) && total > 0.0 && x >= 0.0 && l == log(total)
    ensures Used(code, total, l, length - NormalisedWord(code, x, total), sum + x, logs + code.PLogP(x))
  {
    hide IsPLogP, Code.PLogP;
    NormalisedTerm(code, log, x, total);
    var word := code.PLogP(x / total);
    assert total * (length - word) == total * length - total * word;
    assert (sum + x) * l == sum * l + x * l;
  }

  lemma {:induction false} ChildAdded(code: Code, log: real -> real, total: real, l: real, length: real,
                                      flows: seq<real>, i: nat)
    requires i < |flows| && flows[i] >= 0.0 && IsPLogP(code, log) && total > 0.0 && l == log(total)
    requires Used(code, total, l, length, Sum(flows[..i]), Sum(Logs(code, flows[..i])))
    ensures Used(code, total, l, length - NormalisedWord(code, flows[i], total),
              Sum(flows[..i + 1]), Sum(Logs(code, flows[..i + 1])))
  {
    hide IsPLogP, Used, Code.PLogP, NormalisedWord;
    assert flows[..i + 1][..i] == flows[..i];
    assert Logs(code, flows[..i + 1])[..i] == Logs(code, flows[..i]);
    WordAdded(code, log, total, l, length, Sum(flows[..i]), Sum(Logs(code, flows[..i])), flows[i]);
  }

  lemma {:induction false} NothingUsed(code: Code, total: real, l: real)
    ensures Used(code, total, l, 0.0, Sum([]), Sum(Logs(code, [])))
  {
  }

  lemma {:induction false} AllUsed(code: Code, total: real, l: real, length: real, logs: real)
    requires Used(code, total, l, length, total, logs) && code.PLogP(total) == total * l
    ensures length * total == code.PLogP(total) - logs
  {
  }

  /** A codebook that is never used has no length. */
  lemma {:induction false} NothingToCode(code: Code, rates: seq<real>, exitFlow: real)
    requires code.PLogP(0.0) == 0.0 && exitFlow >= 0.0 && Sum(rates) + exitFlow == 0.0
    requires forall i :: 0 <= i < |rates| ==> rates[i] >= 0.0
    ensures Expanded(code, rates, exitFlow) == 0.0
  {
    SumNonNegative(rates);
    forall i | 0 <= i < |rates| ensures Logs(code, rates)[i] == 0.0 {
      PartOfSum(rates, i);
    }
    SumZero(Logs(code, rates));
  }

  lemma {:induction false} SumNonNegative(xs: seq<real>)
    requires forall i :: 0 <= i < |xs| ==> xs[i] >= 0.0
    ensures Sum(xs) >= 0.0
  {
    if xs != [] { SumNonNegative(xs[..|xs| - 1]); }
  }

  lemma {:induction false} PartOfSum(xs: seq<real>, a: nat)
    requires a < |xs| && forall i :: 0 <= i < |xs| ==> xs[i] >= 0.0
    ensures xs[a] <= Sum(xs)
  {
    var n := |xs| - 1;
    SumNonNegative(xs[..n]);
    if a < n { PartOfSum(xs[..n], a); }
  }

  /** Codelength of a module of modules, from the enter flow of its children. */
  method CalcCodelengthOnModuleOfModules(code: Code, parent: FlowData,
                                         childEnterFlows: seq<real>) returns (length: real)
    ensures parent.flow < NEGLIGIBLE ==> length == 0.0
    ensures parent.flow >= NEGLIGIBLE ==> length == Expanded(code, childEnterFlows, parent.exitFlow)
  {
    var parentFlow, parentExit := parent.flow, parent.exitFlow;
    if parentFlow < NEGLIGIBLE {
      return 0.0;
    }
    var sumEnter, sumEnterLogEnter := 0.0, 0.0;
    for i := 0 to |childEnterFlows|
      invariant sumEnter == Sum(childEnterFlows[..i])
      invariant sumEnterLogEnter == Sum(Logs(code, childEnterFlows[..i]))
    {
      assert childEnterFlows[..i + 1][..i] == childEnterFlows[..i];
      assert Logs(code, childEnterFlows[..i + 1])[..i] == Logs(code, childEnterFlows[..i]);
      sumEnter := sumEnter + childEnterFlows[i];
      sumEnterLogEnter := sumEnterLogEnter + code.PLogP(childEnterFlows[i]);
    }
    assert childEnterFlows[..|childEnterFlows|] == childEnterFlows;
    var totalCodewordUse := parentExit + sumEnter;
    return code.PLogP(totalCodewordUse) - sumEnterLogEnter - code.PLogP(parentExit);
  }

  /** Turning the modules below a parent into leaves, with their enter flow for flow, leaves the
      length of the parent's codebook unchanged. */
  method ScoreSuperLevel(code: Code, parent: FlowData, modules: seq<FlowData>, ghost log: real -> real)
    returns (asModules: real, asLeaves: real)
    requires IsPLogP(code, log) && parent.exitFlow >= 0.0
    requires forall i :: 0 <= i < |modules| ==> modules[i].enterFlow >= 0.0
    requires Sum(Values(modules, Enter)) >= NEGLIGIBLE && parent.flow >= NEGLIGIBLE
    ensures asModules == asLeaves == Expanded(code, Values(modules, Enter), parent.exitFlow)
  {
    asModules := CalcCodelengthOnModuleOfModules(code, parent, Values(modules, Enter));
    var transformed, sumFlow := TransformNodeFlowToEnterFlow(modules);
    asLeaves := CalcCodelengthOnModuleOfLeafNodes(code, parent.(flow := sumFlow), Values(transformed, Flow), log);
  }

  method TransformNodeFlowToEnterFlow(modules: seq<FlowData>) returns (transformed: seq<FlowData>, sumFlow: real)
    ensures |transformed| == |modules|
    ensures forall i :: 0 <= i < |modules| ==> transformed[i] == modules[i].(flow := modules[i].enterFlow)
    ensures Values(transformed, Flow) == Values(modules, Enter)
    ensures sumFlow == Sum(Values(modules, Enter))
  {
    transformed, sumFlow := [], 0.0;
    for i := 0 to |modules|
      invariant |transformed| == i
      invariant forall k :: 0 <= k < i ==> transformed[k] == modules[k].(flow := modules[k].enterFlow)
      invariant sumFlow == Sum(Values(modules, Enter)[..i])
    {
      assert Values(modules, Enter)[..i + 1][..i] == Values(modules, Enter)[..i];
      transformed := transformed + [modules[i].(flow := modules[i].enterFlow)];
      sumFlow := sumFlow + modules[i].enterFlow;
    }
    assert Values(modules, Enter)[..|modules|] == Values(modules, Enter);
  }

  // ----- The whole two-level tree -----

  /** Flow of the leaf nodes of one module, in order. */
  function ChildFlows(flows: seq<real>, index: seq<nat>, m: nat): (r: seq<real>)
    requires |flows| == |index|
  {
    if flows == [] then []
    else
      var n := |flows| - 1;
      ChildFlows(flows[..n], index[..n], m) + (if index[n] == m then [flows[n]] else [])
  }

  lemma {:induction false} ChildFlowSum(ws: seq<real>, index: seq<nat>, m: nat)
    requires |ws| == |index|
    ensures Sum(ChildFlows(ws, index, m)) == Members(ws, index, m)
  {
    if ws != [] {
      var n := |ws| - 1;
      ChildFlowSum(ws[..n], index[..n], m);
      SumAppend(ChildFlows(ws[..n], index[..n], m), ws[n]);
      assert ChildFlows(ws[..n], index[..n], m) + [] == ChildFlows(ws[..n], index[..n], m);
    }
  }

  lemma {:induction false} ChildFlowLogs(code: Code, flows: seq<real>, index: seq<nat>, m: nat)
    requires |flows| == |index|
    ensures Logs(code, ChildFlows(flows, index, m)) == ChildFlows(Logs(code, flows), index, m)
    ensures (forall i :: 0 <= i < |flows| ==> flows[i] >= 0.0) ==>
              forall i :: 0 <= i < |ChildFlows(flows, index, m)| ==> ChildFlows(flows, index, m)[i] >= 0.0
  {
    if flows != [] {
      var n := |flows| - 1;
      ChildFlowLogs(code, flows[..n], index[..n], m);
      assert Logs(code, flows)[..n] == Logs(code, flows[..n]);
    }
  }

  /** Entropy correction charged for a number of codewords. */
  function Correction(bias: BiasParameters, numWords: int): real
    requires bias.totalDegree != 0.0
  {
    if bias.useEntropyBiasCorrection then bias.multiplier * numWords as real / (2.0 * bias.totalDegree) else 0.0
  }

  lemma {:induction false} CorrectionPlus(bias: BiasParameters, a: int, b: int)
    requires bias.totalDegree != 0.0
    ensures Correction(bias, a) + Correction(bias, b) == Correction(bias, a + b)
  {
    if bias.useEntropyBiasCorrection {
      var u, v, d := a as real, b as real, 2.0 * bias.totalDegree;
      assert (a + b) as real == u + v;
      assert bias.multiplier * (u + v) == bias.multiplier * u + bias.multiplier * v;
      assert (bias.multiplier * u + bias.multiplier * v) / d == bias.multiplier * u / d + bias.multiplier * v / d;
    }
  }

  // ----- Trees of any depth -----

  /** The data of a tree of modules over leaf nodes. */
  datatype CodeTree = CodeTree(data: FlowData, children: seq<CodeTree>)
  {
    predicate IsLeaf() { children == [] }

    /** Decided by the first child alone. */
    predicate IsLeafModule() { children != [] && children[0].IsLeaf() }

    /** Use of the codewords for the children. */
    function Rates(): (r: seq<real>)
      ensures |r| == |children|
    {
      Values(Datas(children), if IsLeafModule() then Flow else Enter)
    }

    /** Use of the codeword for this node in the codebook above it. */
    function Rate(): real
    {
      if IsLeaf() then data.flow else data.enterFlow
    }
  }

  function Datas(trees: seq<CodeTree>): (r: seq<FlowData>)
    ensures |r| == |trees| && forall i :: 0 <= i < |r| ==> r[i] == trees[i].data
  {
    seq(|trees|, i requires 0 <= i < |trees| => trees[i].data)
  }

  /** The nodes in the order of the tree iterator, every module before what is below it. */
  function Nodes(t: CodeTree): seq<CodeTree>
  {
    [t] + Below(t.children)
  }

  function Below(trees: seq<CodeTree>): seq<CodeTree>
  {
    if trees == [] then [] else Below(trees[..|trees| - 1]) + Nodes(trees[|trees| - 1])
  }

  /** A module has leaf nodes or modules below it, not both. */
  ghost predicate Uniform(t: CodeTree)
  {
    && (forall i :: 0 <= i < |t.children| ==> (t.children[i].IsLeaf() <==> t.IsLeafModule()))
    && forall c :: c in t.children ==> Uniform(c)
  }

  function Codebook(code: Code, bias: BiasParameters, t: CodeTree): real
    requires bias.totalDegree != 0.0
  {
    Expanded(code, t.Rates(), t.data.exitFlow) + Correction(bias, |t.children|)
  }

  function Codebooks(code: Code, bias: BiasParameters, nodes: seq<CodeTree>): real
    requires bias.totalDegree != 0.0
  {
    if nodes == [] then 0.0
    else Codebooks(code, bias, nodes[..|nodes| - 1]) + Codebook(code, bias, nodes[|nodes| - 1])
  }

  /** A codebook that is used enough to be scored, or not used at all. */
  ghost predicate Scored(t: CodeTree)
  {
    var nonNegative := t.data.exitFlow >= 0.0 && forall i :: 0 <= i < |t.children| ==> t.Rates()[i] >= 0.0;
    if t.IsLeafModule() then
      && nonNegative && Sum(t.Rates()) == t.data.flow
      && (t.data.flow + t.data.exitFlow == 0.0 || t.data.flow + t.data.exitFlow >= NEGLIGIBLE)
    else
      t.data.flow >= NEGLIGIBLE || (nonNegative && Sum(t.Rates()) + t.data.exitFlow == 0.0)
  }

  lemma {:induction false} LeafHasNone(code: Code, bias: BiasParameters, t: CodeTree)
    requires t.IsLeaf() && bias.totalDegree != 0.0
    ensures Codebook(code, bias, t) == 0.0
  {
    assert t.Rates() == [];
  }

  lemma {:induction false} NoWordForZero(code: Code, log: real -> real)
    requires IsPLogP(code, log)
    ensures code.PLogP(0.0) == 0.0
  {
  }

  method CalcCodelength(code: Code, bias: BiasParameters, t: CodeTree, ghost log: real -> real) returns (length: real)
    requires IsPLogP(code, log) && bias.totalDegree != 0.0 && Scored(t)
    ensures length == Codebook(code, bias, t)
  {
    hide IsPLogP, Expanded, Correction;
    if t.IsLeafModule() {
      length := CalcCodelengthOnModuleOfLeafNodes(code, t.data, t.Rates(), log);
    } else {
      if t.data.flow < NEGLIGIBLE {
        NoWordForZero(code, log);
        NothingToCode(code, t.Rates(), t.data.exitFlow);
      }
      length := CalcCodelengthOnModuleOfModules(code, t.data, t.Rates());
    }
    length := length + Correction(bias, |t.children|);
  }

  /** The codebooks of all modules, or of all but the root. */
  method CalcCodelengthOnTree(code: Code, bias: BiasParameters, root: CodeTree, includeRoot: bool,
                              ghost log: real -> real)
    returns (total: real)
    requires IsPLogP(code, log) && bias.totalDegree != 0.0
    requires forall t :: t in Nodes(root) && !t.IsLeaf() ==> Scored(t)
    ensures total + (if includeRoot then 0.0 else Codebook(code, bias, root)) == Codebooks(code, bias, Nodes(root))
  {
    hide IsPLogP, Codebook, Scored, Below;
    var nodes := Nodes(root);
    total := 0.0;
    for i := 0 to |nodes|
      invariant total + (if includeRoot || i == 0 then 0.0 else Codebook(code, bias, root))
             == Codebooks(code, bias, nodes[..i])
    {
      assert nodes[..i + 1][..i] == nodes[..i];
      var node := nodes[i];
      if node.IsLeaf() {
        LeafHasNone(code, bias, node);
      } else if i > 0 || includeRoot {
        var codelength := CalcCodelength(code, bias, node, log);
        total := total + codelength;
      }
    }
    assert nodes[..|nodes|] == nodes;
  }

  // ----- What the codebooks of a tree come to -----

  /** Use of all codebooks, and of leaving them. */
  function Uses(code: Code, nodes: seq<CodeTree>): real
  {
    if nodes == [] then 0.0
    else
      var t := nodes[|nodes| - 1];
      Uses(code, nodes[..|nodes| - 1])
      + (code.PLogP(t.data.exitFlow + Sum(t.Rates())) - code.PLogP(t.data.exitFlow))
  }

  /** Codewords in the codebooks of the nodes. */
  function Words(code: Code, nodes: seq<CodeTree>): real
  {
    if nodes == [] then 0.0 else Words(code, nodes[..|nodes| - 1]) + Sum(Logs(code, nodes[|nodes| - 1].Rates()))
  }

  function NumWords(nodes: seq<CodeTree>): nat
  {
    if nodes == [] then 0 else NumWords(nodes[..|nodes| - 1]) + |nodes[|nodes| - 1].children|
  }

  /** The codeword of each of these nodes. */
  function OwnWords(code: Code, nodes: seq<CodeTree>): real
  {
    if nodes == [] then 0.0 else OwnWords(code, nodes[..|nodes| - 1]) + code.PLogP(nodes[|nodes| - 1].Rate())
  }

  lemma {:induction false} CodebooksSplit(code: Code, bias: BiasParameters, nodes: seq<CodeTree>)
    requires bias.totalDegree != 0.0
    ensures Codebooks(code, bias, nodes)
         == Uses(code, nodes) - Words(code, nodes) + Correction(bias, NumWords(nodes))
  {
    hide Correction, Code.PLogP;
    if nodes == [] {
      CorrectionPlus(bias, 0, 0);
    } else {
      var n := |nodes| - 1;
      CodebooksSplit(code, bias, nodes[..n]);
      CorrectionPlus(bias, NumWords(nodes[..n]), |nodes[n].children|);
    }
  }

  lemma {:induction false} WordsAppend(code: Code, a: seq<CodeTree>, b: seq<CodeTree>)
    ensures Words(code, a + b) == Words(code, a) + Words(code, b)
    ensures OwnWords(code, a + b) == OwnWords(code, a) + OwnWords(code, b)
    ensures NumWords(a + b) == NumWords(a) + NumWords(b)
  {
    if b == [] {
      assert a + b == a;
    } else {
      var n := |b| - 1;
      assert (a + b)[..|a + b| - 1] == a + b[..n];
      WordsAppend(code, a, b[..n]);
    }
  }

  lemma {:induction false} WordsOfOne(code: Code, t: CodeTree)
    ensures Words(code, [t]) == Sum(Logs(code, t.Rates())) && OwnWords(code, [t]) == code.PLogP(t.Rate())
    ensures NumWords([t]) == |t.children|
  {
    assert [t][..0] == [];
  }

  /** The codebook of a uniform module holds the codewords of its children. */
  lemma {:induction false} ChildWords(code: Code, t: CodeTree, n: nat)
    requires n <= |t.children| && forall i :: 0 <= i < |t.children| ==> (t.children[i].IsLeaf() <==> t.IsLeafModule())
    ensures Sum(Logs(code, t.Rates())[..n]) == OwnWords(code, t.children[..n])
  {
    if n > 0 {
      ChildWords(code, t, n - 1);
      assert Logs(code, t.Rates())[..n][..n - 1] == Logs(code, t.Rates())[..n - 1];
      assert t.children[..n][..n - 1] == t.children[..n - 1];
      assert t.Rates()[n - 1] == t.children[n - 1].Rate();
    }
  }

  /** Every node below the root has its codeword in exactly one codebook. */
  lemma {:induction false} EachOnce(code: Code, t: CodeTree)
    requires Uniform(t)
    ensures Words(code, Nodes(t)) == OwnWords(code, Below(t.children)) && NumWords(Nodes(t)) == |Below(t.children)|
    decreases t, 1, 0
  {
    hide Uniform, Code.PLogP;
    UniformParts(t);
    EachOnceBelow(code, t, |t.children|);
    ChildWords(code, t, |t.children|);
    assert t.children[..|t.children|] == t.children && Logs(code, t.Rates())[..|t.children|] == Logs(code, t.Rates());
    WordsAppend(code, [t], Below(t.children));
    WordsOfOne(code, t);
  }

  lemma {:induction false} EachOnceBelow(code: Code, t: CodeTree, n: nat)
    requires n <= |t.children| && forall c :: c in t.children ==> Uniform(c)
    ensures Words(code, Below(t.children[..n]))
         == OwnWords(code, Below(t.children[..n])) - OwnWords(code, t.children[..n])
    ensures NumWords(Below(t.children[..n])) == |Below(t.children[..n])| - n
    decreases t, 0, n
  {
    hide Uniform, Code.PLogP;
    if n > 0 {
      var c, before := t.children[n - 1], t.children[..n - 1];
      assert t.children[..n][..n - 1] == before;
      EachOnceBelow(code, t, n - 1);
      EachOnce(code, c);
      WordsAppend(code, Below(before), Nodes(c));
      WordsAppend(code, [c], Below(c.children));
      WordsOfOne(code, c);
    }
  }

  lemma {:induction false} UniformParts(t: CodeTree)
    requires Uniform(t)
    ensures forall i :: 0 <= i < |t.children| ==> (t.children[i].IsLeaf() <==> t.IsLeafModule())
    ensures forall c :: c in t.children ==> Uniform(c)
  {
  }

  /** The map equation of a tree of any depth: what its codebooks are used, less the codeword of every node below
      the root, once, corrected for the number of these. */
  lemma {:induction false} TreeTotal(code: Code, bias: BiasParameters, t: CodeTree)
    requires bias.totalDegree != 0.0 && Uniform(t)
    ensures Codebooks(code, bias, Nodes(t))
         == Uses(code, Nodes(t)) - OwnWords(code, Below(t.children)) + Correction(bias, |Below(t.children)|)
  {
    hide Uniform, Correction;
    CodebooksSplit(code, bias, Nodes(t));
    EachOnce(code, t);
  }

  // ----- What the entropy correction of a tree is off by -----

  function NumLeaves(nodes: seq<CodeTree>): nat
  {
    if nodes == [] then 0 else NumLeaves(nodes[..|nodes| - 1]) + (if nodes[|nodes| - 1].IsLeaf() then 1 else 0)
  }

  function NumLeafModules(nodes: seq<CodeTree>): nat
  {
    if nodes == [] then 0
    else NumLeafModules(nodes[..|nodes| - 1]) + (if nodes[|nodes| - 1].IsLeafModule() then 1 else 0)
  }

  /** Modules of modules. */
  function NumUpperModules(nodes: seq<CodeTree>): nat
  {
    if nodes == [] then 0
    else
      var t := nodes[|nodes| - 1];
      NumUpperModules(nodes[..|nodes| - 1]) + (if t.IsLeaf() || t.IsLeafModule() then 0 else 1)
  }

  lemma {:induction false} EachOfThree(nodes: seq<CodeTree>)
    ensures NumLeaves(nodes) + NumLeafModules(nodes) + NumUpperModules(nodes) == |nodes|
  {
    if nodes != [] { EachOfThree(nodes[..|nodes| - 1]); }
  }

  /** The tracked correction counts the modules over leaf nodes and the nodes of the network. On the tree the root
      is charged for one codeword more, and every module of modules below it for one. */
  lemma {:induction false} CorrectionOfTree(bias: BiasParameters, t: CodeTree)
    requires bias.totalDegree != 0.0 && Uniform(t)
    ensures var below := Below(t.children);
            Correction(bias, NumWords(Nodes(t))) - bias.EntropyBiasCorrection(NumLeafModules(below))
            == Correction(bias, 1 + NumUpperModules(below) + (NumLeaves(below) - bias.numNodes))
  {
    hide Uniform, Correction, BiasParameters.EntropyBiasCorrection, Below, NumWords;
    var below := Below(t.children);
    EachOnce(Code(x => 0.0), t);
    EachOfThree(below);
    EntropyIsCorrection(bias, NumLeafModules(below));
    CorrectionPlus(bias, NumLeafModules(below) - 1 + bias.numNodes,
        1 + NumUpperModules(below) + (NumLeaves(below) - bias.numNodes));
  }

  lemma {:induction false} EntropyIsCorrection(bias: BiasParameters, numModules: int)
    requires bias.totalDegree != 0.0
    ensures bias.EntropyBiasCorrection(numModules) == Correction(bias, numModules - 1 + bias.numNodes)
  {
  }

  // ----- Two levels -----

  function LeavesOf(nodes: seq<FlowData>, index: seq<nat>, m: nat): seq<CodeTree>
    requires |nodes| == |index|
  {
    if nodes == [] then []
    else
      var n := |nodes| - 1;
      LeavesOf(nodes[..n], index[..n], m) + (if index[n] == m then [CodeTree(nodes[n], [])] else [])
  }

  function ModuleTree(modules: seq<FlowData>, nodes: seq<FlowData>, index: seq<nat>, m: nat): CodeTree
    requires |nodes| == |index| && m < |modules|
  {
    CodeTree(modules[m], LeavesOf(nodes, index, m))
  }

  /** The top modules over their leaf nodes. */
  function TwoLevelTree(root: FlowData, modules: seq<FlowData>, nodes: seq<FlowData>, index: seq<nat>): CodeTree
    requires |nodes| == |index|
  {
    CodeTree(root, seq(|modules|, m requires 0 <= m < |modules| => ModuleTree(modules, nodes, index, m)))
  }

  lemma {:induction false} LeavesOfModule(nodes: seq<FlowData>, index: seq<nat>, m: nat)
    requires |nodes| == |index|
    ensures Values(Datas(LeavesOf(nodes, index, m)), Flow) == ChildFlows(Values(nodes, Flow), index, m)
    ensures forall t :: t in LeavesOf(nodes, index, m) ==> t.IsLeaf()
    ensures m in index ==> LeavesOf(nodes, index, m) != []
  {
    if nodes != [] {
      var n := |nodes| - 1;
      LeavesOfModule(nodes[..n], index[..n], m);
      assert Values(nodes, Flow)[..n] == Values(nodes[..n], Flow);
      if index[n] != m && m in index { assert m in index[..n]; }
    }
  }

  lemma {:induction false} ModuleRates(modules: seq<FlowData>, nodes: seq<FlowData>, index: seq<nat>, m: nat)
    requires |nodes| == |index| && m < |modules| && m in index
    ensures var t := ModuleTree(modules, nodes, index, m);
            t.IsLeafModule() && t.Rates() == ChildFlows(Values(nodes, Flow), index, m)
  {
    LeavesOfModule(nodes, index, m);
  }

  /** Leaves have no codebooks, so only the trees themselves count if they are modules of leaf nodes. */
  lemma {:induction false} OnlyLeavesBelow(code: Code, bias: BiasParameters, trees: seq<CodeTree>)
    requires bias.totalDegree != 0.0 && forall t, c :: t in trees && c in t.children ==> c.IsLeaf()
    ensures Codebooks(code, bias, Below(trees)) == Codebooks(code, bias, trees)
    ensures forall t :: t in Below(trees) && !t.IsLeaf() ==> t in trees
  {
    hide Codebook;
    if trees != [] {
      var n := |trees| - 1;
      OnlyLeavesBelow(code, bias, trees[..n]);
      BelowLeaves(code, bias, trees[n].children);
      CodebooksAppend(code, bias, [trees[n]], Below(trees[n].children));
      CodebooksAppend(code, bias, Below(trees[..n]), Nodes(trees[n]));
      assert [trees[n]][..0] == [];
    }
  }

  lemma {:induction false} BelowLeaves(code: Code, bias: BiasParameters, leaves: seq<CodeTree>)
    requires bias.totalDegree != 0.0 && forall c :: c in leaves ==> c.IsLeaf()
    ensures Below(leaves) == leaves && Codebooks(code, bias, leaves) == 0.0
  {
    hide Codebook;
    if leaves != [] {
      var n := |leaves| - 1;
      var last, rest := leaves[n], leaves[..n];
      BelowLeaves(code, bias, rest);
      LeafHasNone(code, bias, last);
      assert Below(last.children) == [];
      assert Below(leaves) == rest + [last];
    }
  }

  lemma {:induction false} CodebooksAppend(code: Code, bias: BiasParameters, a: seq<CodeTree>, b: seq<CodeTree>)
    requires bias.totalDegree != 0.0
    ensures Codebooks(code, bias, a + b) == Codebooks(code, bias, a) + Codebooks(code, bias, b)
  {
    hide Codebook;
    if b == [] {
      assert a + b == a;
    } else {
      var n := |b| - 1;
      assert (a + b)[..|a + b| - 1] == a + b[..n];
      CodebooksAppend(code, bias, a, b[..n]);
    }
  }

  /** The codebooks of the first m modules. */
  lemma {:induction false} ModuleCodebooks(code: Code, bias: BiasParameters, modules: seq<FlowData>,
                                           nodes: seq<FlowData>, index: seq<nat>, trees: seq<CodeTree>, m: nat)
    requires bias.totalDegree != 0.0 && |nodes| == |index| && m <= |modules| == |trees|
    requires forall j :: 0 <= j < |modules| ==>
               j in index && modules[j].flow == Members(Values(nodes, Flow), index, j)
               && trees[j] == ModuleTree(modules, nodes, index, j)
    ensures Codebooks(code, bias, trees[..m])
         == TermSum(FlowLog, code, modules[..m]) - TermSum(ExitLog, code, modules[..m])
            - Sum(MembersAll(Logs(code, Values(nodes, Flow)), index, |modules|)[..m])
            + Correction(bias, Total(AllMembers(index, |modules|)[..m]))
  {
    hide Members, Correction, TermSum, TermOf, Expanded, Count, ChildFlows, LeavesOf;
    if m == 0 {
      TermSumEmpty(code);
      CorrectionPlus(bias, 0, 0);
      assert trees[..0] == [] && modules[..0] == [];
    } else {
      var j := m - 1;
      ModuleCodebooks(code, bias, modules, nodes, index, trees, j);
      ModuleCodebook(code, bias, modules, nodes, index, j);
      TermAppend(ExitLog, code, modules, j);
      TermAppend(FlowLog, code, modules, j);
      assert trees[..m][..j] == trees[..j];
      NextModuleSums(code, Values(nodes, Flow), index, |modules|, j);
      CorrectionPlus(bias, Total(AllMembers(index, |modules|)[..j]), Count(index, j));
    }
  }

  lemma {:induction false} ModuleCodebook(code: Code, bias: BiasParameters, modules: seq<FlowData>,
                                          nodes: seq<FlowData>, index: seq<nat>, j: nat)
    requires bias.totalDegree != 0.0 && |nodes| == |index| && j < |modules| && j in index
    requires modules[j].flow == Members(Values(nodes, Flow), index, j)
    ensures Codebook(code, bias, ModuleTree(modules, nodes, index, j))
         == TermOf(FlowLog, code, modules[j]) - TermOf(ExitLog, code, modules[j])
            - Members(Logs(code, Values(nodes, Flow)), index, j) + Correction(bias, Count(index, j))
  {
    hide Members, Correction, TermOf, Expanded, Count, ChildFlows, LeavesOf;
    var flows, tree := Values(nodes, Flow), ModuleTree(modules, nodes, index, j);
    ModuleRates(modules, nodes, index, j);
    ChildFlowSum(flows, index, j);
    ChildFlowSum(Logs(code, flows), index, j);
    ChildFlowCount(flows, index, j);
    ChildFlowLogs(code, flows, index, j);
    ModuleIsTerms(code, modules[j], ChildFlows(flows, index, j));
    assert |tree.Rates()| == |tree.children|;
  }

  lemma {:induction false} NextModuleSums(code: Code, flows: seq<real>, index: seq<nat>, n: nat, j: nat)
    requires |flows| == |index| && j < n
    ensures Sum(MembersAll(Logs(code, flows), index, n)[..j + 1])
         == Sum(MembersAll(Logs(code, flows), index, n)[..j]) + Members(Logs(code, flows), index, j)
    ensures Total(AllMembers(index, n)[..j + 1]) == Total(AllMembers(index, n)[..j]) + Count(index, j)
  {
    hide Members, Count;
    var logs, degrees := MembersAll(Logs(code, flows), index, n), AllMembers(index, n);
    assert logs[..j + 1][..j] == logs[..j] && degrees[..j + 1][..j] == degrees[..j];
  }

  /** On two levels the codebooks come to the map equation of the modules, corrected per child. */
  lemma {:induction false} TwoLevelTotal(code: Code, bias: BiasParameters, root: FlowData, modules: seq<FlowData>,
                                         nodes: seq<FlowData>, index: seq<nat>)
    requires bias.totalDegree != 0.0 && |nodes| == |index| && |modules| > 0
    requires forall i :: 0 <= i < |index| ==> index[i] < |modules|
    requires forall m :: 0 <= m < |modules| ==>
               m in index && modules[m].flow == Members(Values(nodes, Flow), index, m)
    ensures Codebooks(code, bias, Nodes(TwoLevelTree(root, modules, nodes, index)))
         == Codelength(code, root.exitFlow, Sum(Logs(code, Values(nodes, Flow))), modules)
            + Correction(bias, |modules| + |nodes|)
  {
    hide TwoLevelTree, Codebook, Codebooks, Nodes, Logs, Values, Correction, TermSum, IndexCodelength, Members,
         ModuleTree, MembersAll, AllMembers, Sum, Total;
    var tree, n := TwoLevelTree(root, modules, nodes, index), |modules|;
    RootRates(root, modules, nodes, index);
    TreesOverLeaves(root, modules, nodes, index);
    RootCodebook(code, bias, root, modules, nodes, index);
    RootAndModules(code, bias, tree);
    ModuleCodebooks(code, bias, modules, nodes, index, tree.children, n);
    AllModules(code, Values(nodes, Flow), index, modules, tree.children);
    CorrectionPlus(bias, n, |nodes|);
  }

  lemma {:induction false} RootCodebook(code: Code, bias: BiasParameters, root: FlowData, modules: seq<FlowData>,
                                        nodes: seq<FlowData>, index: seq<nat>)
    requires bias.totalDegree != 0.0 && |nodes| == |index| && |modules| > 0 && 0 in index
    ensures Codebook(code, bias, TwoLevelTree(root, modules, nodes, index))
         == IndexCodelength(code, root.exitFlow, modules) + Correction(bias, |modules|)
  {
    hide IndexCodelength, Expanded, Correction, TwoLevelTree;
    RootRates(root, modules, nodes, index);
    RootIsIndex(code, root.exitFlow, modules);
  }

  lemma {:induction false} RootAndModules(code: Code, bias: BiasParameters, tree: CodeTree)
    requires bias.totalDegree != 0.0 && forall t, c :: t in tree.children && c in t.children ==> c.IsLeaf()
    ensures Codebooks(code, bias, Nodes(tree)) == Codebook(code, bias, tree) + Codebooks(code, bias, tree.children)
  {
    hide Codebook;
    OnlyLeavesBelow(code, bias, tree.children);
    CodebooksAppend(code, bias, [tree], Below(tree.children));
    assert [tree][..0] == [];
  }

  lemma {:induction false} AllModules(code: Code, flows: seq<real>, index: seq<nat>, modules: seq<FlowData>,
                                      trees: seq<CodeTree>)
    requires |flows| == |index| && |trees| == |modules|
    requires forall i :: 0 <= i < |index| ==> index[i] < |modules|
    ensures trees[..|modules|] == trees && modules[..|modules|] == modules
    ensures Sum(MembersAll(Logs(code, flows), index, |modules|)[..|modules|]) == Sum(Logs(code, flows))
    ensures Total(AllMembers(index, |modules|)[..|modules|]) == |flows|
  {
    var logs, degrees := MembersAll(Logs(code, flows), index, |modules|), AllMembers(index, |modules|);
    assert logs[..|modules|] == logs && degrees[..|modules|] == degrees;
    MembersTotal(Logs(code, flows), index, |modules|);
    TotalMembers(index, |modules|);
  }

  /** What the codebooks of a two-level tree need to be scored. */
  lemma {:induction false} TwoLevelScored(code: Code, bias: BiasParameters, root: FlowData, modules: seq<FlowData>,
                                          nodes: seq<FlowData>, index: seq<nat>)
    requires bias.totalDegree != 0.0 && |nodes| == |index| && |modules| > 0 && root.flow >= NEGLIGIBLE
    requires forall i :: 0 <= i < |nodes| ==> nodes[i].flow >= 0.0
    requires forall m :: 0 <= m < |modules| ==>
               && m in index && modules[m].flow == Members(Values(nodes, Flow), index, m) && modules[m].exitFlow >= 0.0
               && (modules[m].flow + modules[m].exitFlow == 0.0 || modules[m].flow + modules[m].exitFlow >= NEGLIGIBLE)
    ensures forall t :: t in Nodes(TwoLevelTree(root, modules, nodes, index)) && !t.IsLeaf() ==> Scored(t)
  {
    hide Members, Codebook;
    var tree := TwoLevelTree(root, modules, nodes, index);
    RootRates(root, modules, nodes, index);
    TreesOverLeaves(root, modules, nodes, index);
    OnlyLeavesBelow(code, bias, tree.children);
    forall t | t in tree.children ensures Scored(t) {
      var m :| 0 <= m < |modules| && t == ModuleTree(modules, nodes, index, m);
      ModuleRates(modules, nodes, index, m);
      ChildFlowLogs(code, Values(nodes, Flow), index, m);
      ChildFlowSum(Values(nodes, Flow), index, m);
    }
  }

  lemma {:induction false} RootRates(root: FlowData, modules: seq<FlowData>, nodes: seq<FlowData>, index: seq<nat>)
    requires |nodes| == |index| && |modules| > 0 && 0 in index
    ensures var tree := TwoLevelTree(root, modules, nodes, index);
            && !tree.IsLeafModule() && tree.Rates() == Values(modules, Enter) && tree.data == root
            && |tree.children| == |modules|
            && forall m :: 0 <= m < |modules| ==> tree.children[m] == ModuleTree(modules, nodes, index, m)
  {
    LeavesOfModule(nodes, index, 0);
  }

  lemma {:induction false} TreesOverLeaves(root: FlowData, modules: seq<FlowData>, nodes: seq<FlowData>,
                                           index: seq<nat>)
    requires |nodes| == |index|
    ensures forall t, c :: t in TwoLevelTree(root, modules, nodes, index).children && c in t.children ==> c.IsLeaf()
  {
    forall t, c | t in TwoLevelTree(root, modules, nodes, index).children && c in t.children ensures c.IsLeaf() {
      var m :| 0 <= m < |modules| && t == ModuleTree(modules, nodes, index, m);
      LeavesOfModule(nodes, index, m);
    }
  }

  lemma {:induction false} ChildFlowCount(flows: seq<real>, index: seq<nat>, m: nat)
    requires |flows| == |index|
    ensures |ChildFlows(flows, index, m)| == Count(index, m)
  {
    if flows != [] { ChildFlowCount(flows[..|flows| - 1], index[..|flows| - 1], m); }
  }

  lemma {:induction false} RootIsIndex(code: Code, exitFlow: real, modules: seq<FlowData>)
    ensures Expanded(code, Values(modules, Enter), exitFlow) == IndexCodelength(code, exitFlow, modules)
  {
    assert Terms(EnterFlow, code, modules) == Values(modules, Enter);
    assert Terms(EnterLog, code, modules) == Logs(code, Values(modules, Enter));
  }

  lemma {:induction false} ModuleIsTerms(code: Code, d: FlowData, childFlows: seq<real>)
    requires Sum(childFlows) == d.flow
    ensures Expanded(code, childFlows, d.exitFlow)
         == TermOf(FlowLog, code, d) - TermOf(ExitLog, code, d) - Sum(Logs(code, childFlows))
  {
  }

  // ----- Tracked against recomputed -----

  /** What the tree evaluation is off by, compared to the tracked objective, when the top modules
      hold numLeaves leaf nodes: the root is charged for one codeword more, the tracked correction
      counts the nodes of the whole network, and the cost of the number of modules is not part of a
      codebook. */
  function Drift(bias: BiasParameters, numModules: int, numLeaves: int): real
    requires bias.totalDegree != 0.0
  {
    Correction(bias, 1 + numLeaves - bias.numNodes) - bias.NumModuleCost(numModules)
  }

  lemma {:induction false} DriftIsDifference(bias: BiasParameters, numModules: int, numLeaves: int)
    requires bias.totalDegree != 0.0
    ensures Correction(bias, numModules + numLeaves) - bias.Bias(numModules) == Drift(bias, numModules, numLeaves)
    ensures !bias.On() ==> Drift(bias, numModules, numLeaves) == 0.0
  {
    bias.CorrectionSplits(numModules);
    CorrectionPlus(bias, numModules - 1 + bias.numNodes, 1 + numLeaves - bias.numNodes);
    EntropyIsCorrection(bias, numModules);
  }

  /** Data of the top modules of a search: the sums over the leaves below each. */
  lemma {:induction false} TopModuleFlow(leaf: Network, q: seq<nat>, top: Network, j: nat)
    requires Represents(leaf, q, top) && j < |top.nodes|
    ensures |q| == |leaf.nodes| && top.nodes[j].flow == Members(Values(leaf.nodes, Flow), q, j)
  {
    var id := Identity(|top.nodes|);
    ModuleDataSingle(top, id, j);
    assert Compose(q, id) == q;
    assert ModuleData(top, id, j) == ModuleData(leaf, Compose(q, id), j);
    assert MemberData(leaf.nodes, q, j).Get(Flow) == Members(Values(leaf.nodes, Flow), q, j);
  }

  lemma {:induction false} TopModulesUsed(leaf: Network, q: seq<nat>, top: Network)
    requires Represents(leaf, q, top)
    ensures |q| == |leaf.nodes| && forall i :: 0 <= i < |q| ==> q[i] < |top.nodes|
    ensures forall j :: 0 <= j < |top.nodes| ==> j in q
  {
  }

  lemma {:induction false} CodelengthOfTop(setting: Setting, leaf: Network, q: seq<nat>, top: Network)
    requires Represents(leaf, q, top)
    requires setting.code.PLogP(0.0) == 0.0 && setting.bias.totalDegree != 0.0
    ensures leaf.Valid() && |q| == |leaf.nodes|
    ensures Objective(setting, leaf, q)
         == Codelength(setting.code, setting.exitNetworkFlow, setting.nodeFlowLog, top.nodes)
             + setting.bias.Bias(|top.nodes|)
  {
    ObjectiveOfTop(setting, leaf, q, top);
    ObjectiveOfSingletons(setting, top, Identity(|top.nodes|));
  }

  /** Recompute the codelength of the tree a search has arrived at. It differs from the tracked
      codelength by the drift, and so equals it exactly when the drift is zero. */
  method Recompute(search: Search, root: FlowData, ghost log: real -> real) returns (recomputed: real)
    requires search.Ready() && search.haveModules
    requires search.optimizer.objective.GetCodelength()
          == Objective(search.optimizer.Constants(), search.leafNetwork, search.assignment)
    requires IsPLogP(search.optimizer.objective.base.code, log)
    requires root.exitFlow == search.optimizer.objective.base.exitNetworkFlow && root.flow >= NEGLIGIBLE
    requires search.optimizer.objective.base.nodeFlowLogNodeFlow
          == Sum(Logs(search.optimizer.objective.base.code, Values(search.leafNetwork.nodes, Flow)))
    requires forall i :: 0 <= i < |search.leafNetwork.nodes| ==> search.leafNetwork.nodes[i].flow >= 0.0
    requires forall m :: 0 <= m < |search.topNetwork.nodes| ==>
               var d := search.topNetwork.nodes[m];
               d.exitFlow >= 0.0 && (d.flow + d.exitFlow == 0.0 || d.flow + d.exitFlow >= NEGLIGIBLE)
    ensures recomputed - search.optimizer.objective.GetCodelength()
         == Drift(search.optimizer.objective.bias, |search.topNetwork.nodes|, |search.leafNetwork.nodes|)
    ensures !search.optimizer.objective.bias.On() ==> recomputed == search.optimizer.objective.GetCodelength()
  {
    hide Represents, IsPLogP, Codelength, Correction, BiasedMapEquation.GetCodelength, Scored, TwoLevelTree, Codebooks,
         Codebook, Members;
    var objective := search.optimizer.objective;
    var modules := search.topNetwork.nodes;
    ghost var leaf, q, top := search.leafNetwork, search.assignment, search.topNetwork;
    RepresentedSizes(leaf, q, top);
    forall j | 0 <= j < |modules| ensures modules[j].flow == Members(Values(leaf.nodes, Flow), q, j) {
      TopModuleFlow(leaf, q, top, j);
    }
    TopModulesUsed(leaf, q, top);
    TwoLevelTotal(objective.base.code, objective.bias, root, modules, leaf.nodes, q);
    TwoLevelScored(objective.base.code, objective.bias, root, modules, leaf.nodes, q);
    var tree := TwoLevelTree(root, modules, search.leafNetwork.nodes, search.assignment);
    recomputed := CalcCodelengthOnTree(objective.base.code, objective.bias, tree, true, log);
    CodelengthOfTop(search.optimizer.Constants(), leaf, q, top);
    DriftIsDifference(objective.bias, |modules|, |leaf.nodes|);
  }

  // ----- When a fine-tune keeps a codelength below that of its tree -----

  /** Two nodes with flow h each, joined by a link, and a node without links that has the rest of the flow. */
  function LinkedPair(h: real): Network
  {
    var node := FlowData(h, h, h, 0.0, 0.0, 0.0, 0.0);
    Network([node, node, FlowData(1.0 - 2.0 * h, 0.0, 0.0, 0.0, 0.0, 0.0, 0.0)], [Edge(0, 1, 2.0 * h)], false)
  }

  lemma {:induction false} LinkedPairModules(h: real)
    ensures var net := LinkedPair(h);
            && net.Valid() && net.Partition([0, 1, 2]) && net.Partition([0, 0, 2])
            && Sum(Values(net.nodes, Flow)) == 1.0
            && AllModuleData(net, [0, 1, 2]) == net.nodes
            && AllModuleData(net, [0, 0, 2])
               == [FlowData(2.0 * h, 0.0, 0.0, 0.0, 0.0, 0.0, 0.0), ZERO_FLOW, net.nodes[2]]
  {
    hide ModuleData, FlowBetween, Sum;
    var net := LinkedPair(h);
    SumOfThree(Values(net.nodes, Flow));
    ModuleDataSingle(net, [0, 1, 2], 0);
    ModuleDataSingle(net, [0, 1, 2], 1);
    ModuleDataSingle(net, [0, 1, 2], 2);
    ModuleDataSingle(net, [0, 0, 2], 2);
    ModuleDataEmpty(net, [0, 0, 2], 1);
    assert [0, 1, 2][1 := 0] == [0, 0, 2];
    ModuleDataMove(net, [0, 1, 2], 1, 0, 0);
    LinkedPairFlow(h);
  }

  lemma {:induction false} LinkedPairFlow(h: real)
    ensures LinkedPair(h).Valid() && FlowBetween(LinkedPair(h), [0, 1, 2], 1, 0) == 2.0 * h
  {
    var net := LinkedPair(h);
    var before := net.edges[..0];
    assert before == [] && |net.edges| == 1 && net.edges[..|net.edges| - 1] == before;
    assert OutFlow(before, [0, 1, 2], 1, 0) == 0.0 && InFlow(before, [0, 1, 2], 1, 0) == 0.0;
    assert OutFlow(net.edges, [0, 1, 2], 1, 0) == 0.0;
    assert InFlow(net.edges, [0, 1, 2], 1, 0) == 2.0 * h;
  }

  lemma {:induction false} SumOfTwo(xs: seq<real>)
    requires |xs| == 2
    ensures Sum(xs) == xs[0] + xs[1]
  {
    assert xs[..1][..0] == [];
    assert Sum(xs[..1]) == xs[0];
  }

  lemma {:induction false} SumOfThree(xs: seq<real>)
    requires |xs| == 3
    ensures Sum(xs) == xs[0] + xs[1] + xs[2]
  {
    SumOfTwo(xs[..2]);
  }

  lemma {:induction false} CodelengthOfThree(code: Code, nodeFlowLog: real, modules: seq<FlowData>)
    requires |modules| == 3 && code.PLogP(0.0) == 0.0
    requires modules[2].enterFlow == modules[2].exitFlow == 0.0
    ensures Codelength(code, 0.0, nodeFlowLog, modules)
         == code.PLogP(modules[0].enterFlow + modules[1].enterFlow)
            - code.PLogP(modules[0].enterFlow) - code.PLogP(modules[1].enterFlow)
            - code.PLogP(modules[0].exitFlow) - code.PLogP(modules[1].exitFlow)
            + code.PLogP(modules[0].exitFlow + modules[0].flow) + code.PLogP(modules[1].exitFlow + modules[1].flow)
            + code.PLogP(modules[2].flow) - nodeFlowLog
  {
    SumOfThree(Terms(EnterFlow, code, modules));
    SumOfThree(Terms(EnterLog, code, modules));
    SumOfThree(Terms(ExitLog, code, modules));
    SumOfThree(Terms(FlowLog, code, modules));
    hide Sum;
  }

  /** Doubling under a logarithm with base two. */
  lemma {:induction false} DoubledLog(code: Code, log: real -> real, h: real)
    requires IsPLogP(code, log) && log(2.0) == 1.0 && h > 0.0
    ensures code.PLogP(2.0 * h) == 2.0 * code.PLogP(h) + 2.0 * h
  {
    hide IsPLogP, Code.PLogP;
    var d := 2.0 * h;
    assert d / h == 2.0;
    LogOfQuotient(code, log, d, h);
    PLogPOf(code, log, d);
    PLogPOf(code, log, h);
    var x := log(h);
    assert d * (x + 1.0) == 2.0 * (h * x) + 2.0 * h;
  }

  /** With a single-node threshold below the improvement threshold, and below two bits, a fine-tune of two linked
      nodes, each in a module of its own, can merge them, count that as no effective loop, and keep the lower
      codelength although the tree stays. With FineTune's contract, the codelength kept is the tree's for every
      network with a total flow of one exactly if the improvement threshold is no larger than the single-node
      threshold. */
  lemma {:induction false} FineTuneCanStayBelow(code: Code, log: real -> real, single: real, threshold: real)
    requires IsPLogP(code, log) && log(2.0) == 1.0 && 0.0 <= single < threshold && single < 2.0
    ensures var h := if threshold < 2.0 then threshold / 4.0 else 0.5;
            var net, bias := LinkedPair(h), BiasParameters(0, false, 0.0, 1.0, 0);
            var setting := Setting(code, bias, 0.0, Sum(Logs(code, Values(net.nodes, Flow))));
            && net.Valid() && Sum(Values(net.nodes, Flow)) == 1.0
            && LinkedTo(net.edges, [0, 1, 2], 1, 0)
            && Objective(setting, net, [0, 1, 2][1 := 0]) < Objective(setting, net, [0, 1, 2]) - single
            && Objective(setting, net, [0, 0, 2]) >= Objective(setting, net, [0, 1, 2]) - threshold
            && forall kept: real, restored: bool ::
                 KeptAfterFineTune(kept, restored, Objective(setting, net, [0, 1, 2]),
                                   Objective(setting, net, [0, 0, 2]), single, threshold)
                 ==> !restored && kept < Objective(setting, net, [0, 1, 2])
  {
    hide IsPLogP, Codelength, AllModuleData, Sum, Logs, NumModules;
    var h := if threshold < 2.0 then threshold / 4.0 else 0.5;
    var net, bias := LinkedPair(h), BiasParameters(0, false, 0.0, 1.0, 0);
    var log0 := Sum(Logs(code, Values(net.nodes, Flow)));
    LinkedPairModules(h);
    PLogPOf(code, log, h);
    DoubledLog(code, log, h);
    CodelengthOfThree(code, log0, AllModuleData(net, [0, 1, 2]));
    CodelengthOfThree(code, log0, AllModuleData(net, [0, 0, 2]));
    assert [0, 1, 2][1 := 0] == [0, 0, 2];
    assert LinkJoins(net.edges[0], [0, 1, 2], 1, 0);
    bias.SwitchedOff(NumModules(net, [0, 1, 2]));
    bias.SwitchedOff(NumModules(net, [0, 0, 2]));
  }
}
