/** The map equation: the from-scratch codelength of a vector of modules, and the objective
    object that keeps the same number up to date move by move.

    plogp is a parameter of everything here, so what is proved holds for every function in its
    place. Where an empty module is dropped, code.PLogP(0) = 0 is asked for. */
module MapEquations {
  import opened Sums
  import opened FlowNetwork

  /** The function p * log2(p) of the program, as a parameter: what is proved holds for every
      function in its place. Where an empty module is dropped, PLogP(0) = 0 is asked for. */
  datatype Code = Code(f: real -> real)
  {
    function PLogP(p: real): real { f(p) }
  }

  // ----- From-scratch codelength of a vector of modules -----

  datatype Term = EnterFlow | EnterLog | ExitLog | FlowLog

  /** What one module contributes to each of the running sums. */
  function TermOf(term: Term, code: Code, d: FlowData): real
  {
    match term
    case EnterFlow => d.enterFlow
    case EnterLog => code.PLogP(d.enterFlow)
    case ExitLog => code.PLogP(d.exitFlow)
    case FlowLog => code.PLogP(d.exitFlow + d.flow)
  }

  function Terms(term: Term, code: Code, modules: seq<FlowData>): (r: seq<real>)
    ensures |r| == |modules|
    ensures forall m :: 0 <= m < |r| ==> r[m] == TermOf(term, code, modules[m])
  {
    seq(|modules|, m requires 0 <= m < |modules| => TermOf(term, code, modules[m]))
  }

  function TermSum(term: Term, code: Code, modules: seq<FlowData>): real
  {
    Sum(Terms(term, code, modules))
  }

  /** Index codebook: choosing among the modules, or leaving the network. */
  function IndexCodelength(code: Code, exitNetworkFlow: real, modules: seq<FlowData>): real
  {
    code.PLogP(exitNetworkFlow + TermSum(EnterFlow, code, modules)) - TermSum(EnterLog, code,
        modules) - code.PLogP(exitNetworkFlow)
  }

  /** Module codebooks: visiting the nodes of a module, or leaving it. */
  function ModuleCodelength(code: Code, nodeFlowLog: real, modules: seq<FlowData>): real
  {
    -TermSum(ExitLog, code, modules) + TermSum(FlowLog, code, modules) - nodeFlowLog
  }

  function Codelength(code: Code, exitNetworkFlow: real, nodeFlowLog: real, modules: seq<FlowData>): real
  {
    IndexCodelength(code, exitNetworkFlow, modules) + ModuleCodelength(code, nodeFlowLog, modules)
  }

  // ----- One move on a vector of modules -----

  ghost predicate MoveOk(modules: seq<FlowData>, oldDelta: DeltaFlow, newDelta: DeltaFlow)
  {
    oldDelta.moduleId < |modules| && newDelta.moduleId < |modules| && oldDelta.moduleId != newDelta.moduleId
  }

  function Moved(modules: seq<FlowData>, current: FlowData, oldDelta: DeltaFlow, newDelta: DeltaFlow): seq<FlowData>
    requires MoveOk(modules, oldDelta, newDelta)
  {
    var o, n := oldDelta.moduleId, newDelta.moduleId;
    modules[o := modules[o].Minus(current).Shift(oldDelta.Total())]
           [n := modules[n].Plus(current).Shift(-newDelta.Total())]
  }

  /** The old-module terms of the move delta, the same for every candidate of a node. */
  datatype OldSideTerms = OldSideTerms(
    deltaEnterExitOld: real,
    curEnter: real, curExit: real, curFlow: real,
    plogpOldEnter: real, plogpOldEnterAfter: real,
    plogpOldExit: real, plogpOldExitAfter: real,
    plogpOldExitFlow: real, plogpOldExitFlowAfter: real)

  class MapEquation {
    const code: Code

    var codelength: real
    var indexCodelength: real
    var moduleCodelength: real

    var nodeFlowLogNodeFlow: real
    var flowLogFlow: real
    var exitLogExit: real
    var enterLogEnter: real
    var enterFlow: real
    var enterFlowLogEnterFlow: real
    var exitNetworkFlow: real
    var exitNetworkFlowLog: real

    constructor (code: Code)
      requires code.PLogP(0.0) == 0.0
      ensures this.code == code && codelength == indexCodelength == moduleCodelength == 0.0
      ensures exitNetworkFlow == 0.0 && exitNetworkFlowLog == code.PLogP(exitNetworkFlow) && nodeFlowLogNodeFlow == 0.0
    {
      this.code := code;
      codelength, indexCodelength, moduleCodelength := 0.0, 0.0, 0.0;
      nodeFlowLogNodeFlow, flowLogFlow, exitLogExit, enterLogEnter := 0.0, 0.0, 0.0, 0.0;
      enterFlow, enterFlowLogEnterFlow, exitNetworkFlow, exitNetworkFlowLog := 0.0, 0.0, 0.0, 0.0;
    }

    /** Every term is the from-scratch sum over the given modules. */
    ghost predicate Tracks(modules: seq<FlowData>)
      reads this
    {
      && exitNetworkFlowLog == code.PLogP(exitNetworkFlow)
      && enterFlow == exitNetworkFlow + TermSum(EnterFlow, code, modules)
      && enterFlowLogEnterFlow == code.PLogP(enterFlow)
      && enterLogEnter == TermSum(EnterLog, code, modules)
      && exitLogExit == TermSum(ExitLog, code, modules)
      && flowLogFlow == TermSum(FlowLog, code, modules)
      && indexCodelength == IndexCodelength(code, exitNetworkFlow, modules)
      && moduleCodelength == ModuleCodelength(code, nodeFlowLogNodeFlow, modules)
      && codelength == Codelength(code, exitNetworkFlow, nodeFlowLogNodeFlow, modules)
    }

    /** Constant terms of a network whose leaf nodes are the given children of the root. */
    method InitNetwork(children: seq<FlowData>, rootExitFlow: real)
      modifies this
      ensures nodeFlowLogNodeFlow == Sum(seq(|children|,
                i requires 0 <= i < |children| => code.PLogP(children[i].flow)))
      ensures exitNetworkFlow == rootExitFlow && exitNetworkFlowLog == code.PLogP(exitNetworkFlow)
    {
      nodeFlowLogNodeFlow := 0.0;
      ghost var logs := seq(|children|, i requires 0 <= i < |children| => code.PLogP(children[i].flow));
      for i := 0 to |children|
        invariant nodeFlowLogNodeFlow == Sum(logs[..i])
      {
        nodeFlowLogNodeFlow := nodeFlowLogNodeFlow + code.PLogP(children[i].flow);
        assert logs[..i + 1] == logs[..i] + [logs[i]];
        SumAppend(logs[..i], logs[i]);
      }
      assert logs[..|children|] == logs;
      exitNetworkFlow := rootExitFlow;
      exitNetworkFlowLog := code.PLogP(exitNetworkFlow);
    }

    method CalculateCodelengthTerms(nodes: seq<FlowData>)
      modifies `enterLogEnter, `flowLogFlow, `exitLogExit, `enterFlow, `enterFlowLogEnterFlow
      ensures enterFlow == exitNetworkFlow + TermSum(EnterFlow, code, nodes)
      ensures enterFlowLogEnterFlow == code.PLogP(enterFlow)
      ensures enterLogEnter == TermSum(EnterLog, code, nodes)
      ensures exitLogExit == TermSum(ExitLog, code, nodes)
      ensures flowLogFlow == TermSum(FlowLog, code, nodes)
    {
      hide TermSum, Code.PLogP;
      enterLogEnter, flowLogFlow, exitLogExit, enterFlow := 0.0, 0.0, 0.0, 0.0;
      TermSumEmpty(code);
      assert nodes[..0] == [];
      for i := 0 to |nodes|
        invariant enterFlow == TermSum(EnterFlow, code, nodes[..i])
        invariant enterLogEnter == TermSum(EnterLog, code, nodes[..i])
        invariant exitLogExit == TermSum(ExitLog, code, nodes[..i])
        invariant flowLogFlow == TermSum(FlowLog, code, nodes[..i])
      {
        var node := nodes[i];
        TermAppend(EnterFlow, code, nodes, i);
        TermAppend(EnterLog, code, nodes, i);
        TermAppend(ExitLog, code, nodes, i);
        TermAppend(FlowLog, code, nodes, i);
        flowLogFlow := flowLogFlow + code.PLogP(node.exitFlow + node.flow);
        enterLogEnter := enterLogEnter + code.PLogP(node.enterFlow);
        exitLogExit := exitLogExit + code.PLogP(node.exitFlow);
        enterFlow := enterFlow + node.enterFlow;
      }
      assert nodes[..|nodes|] == nodes;
      enterFlow := enterFlow + exitNetworkFlow;
      enterFlowLogEnterFlow := code.PLogP(enterFlow);
    }

    method CalculateCodelength(nodes: seq<FlowData>)
      requires exitNetworkFlowLog == code.PLogP(exitNetworkFlow)
      modifies this
      ensures Tracks(nodes)
      ensures exitNetworkFlow == old(exitNetworkFlow) && nodeFlowLogNodeFlow == old(nodeFlowLogNodeFlow)
    {
      hide TermSum, Code.PLogP;
      CalculateCodelengthTerms(nodes);
      CalculateCodelengthFromCodelengthTerms();
    }

    method CalculateCodelengthFromCodelengthTerms()
      modifies `indexCodelength, `moduleCodelength, `codelength
      ensures indexCodelength == enterFlowLogEnterFlow - enterLogEnter - exitNetworkFlowLog
      ensures moduleCodelength == -exitLogExit + flowLogFlow - nodeFlowLogNodeFlow
      ensures codelength == indexCodelength + moduleCodelength
    {
      indexCodelength := enterFlowLogEnterFlow - enterLogEnter - exitNetworkFlowLog;
      moduleCodelength := -exitLogExit + flowLogFlow - nodeFlowLogNodeFlow;
      codelength := indexCodelength + moduleCodelength;
    }

    /** Change of codelength predicted for a move, from the terms of the two modules involved. */
    function GetDeltaCodelengthOnMovingNode(current: FlowData, oldDelta: DeltaFlow, newDelta: DeltaFlow,
                                            modules: seq<FlowData>): real
      requires MoveOk(modules, oldDelta, newDelta)
      reads this
    {
      var deltaOld := oldDelta.deltaEnter + oldDelta.deltaExit;
      var deltaNew := newDelta.deltaEnter + newDelta.deltaExit;
      var oldM, newM := modules[oldDelta.moduleId], modules[newDelta.moduleId];
      var oldExitPlusFlow := oldM.exitFlow + oldM.flow;
      var newExitPlusFlow := newM.exitFlow + newM.flow;
      var deltaEnter := code.PLogP(enterFlow + deltaOld - deltaNew) - enterFlowLogEnterFlow;
      var deltaEnterLogEnter :=
        -code.PLogP(oldM.enterFlow) - code.PLogP(newM.enterFlow)
        + code.PLogP(oldM.enterFlow - current.enterFlow + deltaOld)
            + code.PLogP(newM.enterFlow + current.enterFlow - deltaNew);
      var deltaExitLogExit :=
        -code.PLogP(oldM.exitFlow) - code.PLogP(newM.exitFlow)
        + code.PLogP(oldM.exitFlow - current.exitFlow + deltaOld)
            + code.PLogP(newM.exitFlow + current.exitFlow - deltaNew);
      var deltaFlowLogFlow :=
        -code.PLogP(oldExitPlusFlow) - code.PLogP(newExitPlusFlow)
        + code.PLogP(oldExitPlusFlow - current.exitFlow - current.flow + deltaOld)
        + code.PLogP(newExitPlusFlow + current.exitFlow + current.flow - deltaNew);
      deltaEnter - deltaEnterLogEnter - deltaExitLogExit + deltaFlowLogFlow
    }

    function HoistOldSide(current: FlowData, oldDelta: DeltaFlow, modules: seq<FlowData>): OldSideTerms
      requires oldDelta.moduleId < |modules|
      reads this
    {
      var deltaOld := oldDelta.deltaEnter + oldDelta.deltaExit;
      var oldM := modules[oldDelta.moduleId];
      var oldExitPlusFlow := oldM.exitFlow + oldM.flow;
      OldSideTerms(deltaOld, current.enterFlow, current.exitFlow, current.flow,
                   code.PLogP(oldM.enterFlow), code.PLogP(oldM.enterFlow - current.enterFlow + deltaOld),
                   code.PLogP(oldM.exitFlow), code.PLogP(oldM.exitFlow - current.exitFlow + deltaOld),
                   code.PLogP(oldExitPlusFlow), code.PLogP(oldExitPlusFlow - current.exitFlow - current.flow
                       + deltaOld))
    }

    function GetDeltaCodelengthOnMovingNodeHoisted(oldSide: OldSideTerms, newDelta: DeltaFlow,
                                                   modules: seq<FlowData>): real
      requires newDelta.moduleId < |modules|
      reads this
    {
      var deltaNew := newDelta.deltaEnter + newDelta.deltaExit;
      var deltaOld := oldSide.deltaEnterExitOld;
      var newM := modules[newDelta.moduleId];
      var newExitPlusFlow := newM.exitFlow + newM.flow;
      var deltaEnter := code.PLogP(enterFlow + deltaOld - deltaNew) - enterFlowLogEnterFlow;
      var deltaEnterLogEnter :=
        -oldSide.plogpOldEnter - code.PLogP(newM.enterFlow)
        + oldSide.plogpOldEnterAfter + code.PLogP(newM.enterFlow + oldSide.curEnter - deltaNew);
      var deltaExitLogExit :=
        -oldSide.plogpOldExit - code.PLogP(newM.exitFlow)
        + oldSide.plogpOldExitAfter + code.PLogP(newM.exitFlow + oldSide.curExit - deltaNew);
      var deltaFlowLogFlow :=
        -oldSide.plogpOldExitFlow - code.PLogP(newExitPlusFlow)
        + oldSide.plogpOldExitFlowAfter + code.PLogP(newExitPlusFlow + oldSide.curExit + oldSide.curFlow - deltaNew);
      deltaEnter - deltaEnterLogEnter - deltaExitLogExit + deltaFlowLogFlow
    }

    /** The move itself: two entries of the module vector change, and every term with them. */
    method UpdateCodelengthOnMovingNode(current: FlowData, oldDelta: DeltaFlow, newDelta: DeltaFlow,
                                        modules: seq<FlowData>)
      returns (moduleFlowData: seq<FlowData>)
      requires MoveOk(modules, oldDelta, newDelta)
      requires Tracks(modules)
      modifies this
      ensures moduleFlowData == Moved(modules, current, oldDelta, newDelta)
      ensures Tracks(moduleFlowData)
      ensures codelength == old(codelength + GetDeltaCodelengthOnMovingNode(current, oldDelta, newDelta, modules))
      ensures exitNetworkFlow == old(exitNetworkFlow) && nodeFlowLogNodeFlow == old(nodeFlowLogNodeFlow)
    {
      hide TermSum, Code.PLogP, FlowData.Minus, FlowData.Plus, FlowData.Shift;
      var o, n := oldDelta.moduleId, newDelta.moduleId;
      var deltaOld := oldDelta.deltaEnter + oldDelta.deltaExit;
      var deltaNew := newDelta.deltaEnter + newDelta.deltaExit;
      moduleFlowData := modules;
      DeltaIsExact(this, current, oldDelta, newDelta, modules);

      enterFlow := enterFlow - (modules[o].enterFlow + modules[n].enterFlow);
      enterLogEnter := enterLogEnter - (code.PLogP(modules[o].enterFlow) + code.PLogP(modules[n].enterFlow));
      exitLogExit := exitLogExit - (code.PLogP(modules[o].exitFlow) + code.PLogP(modules[n].exitFlow));
      flowLogFlow := flowLogFlow - (code.PLogP(modules[o].exitFlow + modules[o].flow)
                                    + code.PLogP(modules[n].exitFlow + modules[n].flow));

      moduleFlowData := moduleFlowData[o := moduleFlowData[o].Minus(current)];
      moduleFlowData := moduleFlowData[n := moduleFlowData[n].Plus(current)];
      moduleFlowData := moduleFlowData[o := moduleFlowData[o].Shift(deltaOld)];
      moduleFlowData := moduleFlowData[n := moduleFlowData[n].Shift(-deltaNew)];
      assert moduleFlowData == Moved(modules, current, oldDelta, newDelta);

      var oldM, newM := moduleFlowData[o], moduleFlowData[n];
      enterFlow := enterFlow + (oldM.enterFlow + newM.enterFlow);
      enterLogEnter := enterLogEnter + (code.PLogP(oldM.enterFlow) + code.PLogP(newM.enterFlow));
      exitLogExit := exitLogExit + (code.PLogP(oldM.exitFlow) + code.PLogP(newM.exitFlow));
      flowLogFlow := flowLogFlow + (code.PLogP(oldM.exitFlow + oldM.flow) + code.PLogP(newM.exitFlow + newM.flow));
      enterFlowLogEnterFlow := code.PLogP(enterFlow);
      TermMoved(EnterFlow, code, modules, current, oldDelta, newDelta);
      TermMoved(EnterLog, code, modules, current, oldDelta, newDelta);
      TermMoved(ExitLog, code, modules, current, oldDelta, newDelta);
      TermMoved(FlowLog, code, modules, current, oldDelta, newDelta);
      assert enterFlow == exitNetworkFlow + TermSum(EnterFlow, code, moduleFlowData);
      assert enterLogEnter == TermSum(EnterLog, code, moduleFlowData);
      assert exitLogExit == TermSum(ExitLog, code, moduleFlowData);
      assert flowLogFlow == TermSum(FlowLog, code, moduleFlowData);

      CalculateCodelengthFromCodelengthTerms();
    }

    method CopyFrom(other: MapEquation)
      requires other.code == code
      modifies this
      ensures SameAs(other)
    {
      codelength, indexCodelength, moduleCodelength := other.codelength, other.indexCodelength, other.moduleCodelength;
      nodeFlowLogNodeFlow, flowLogFlow := other.nodeFlowLogNodeFlow, other.flowLogFlow;
      exitLogExit, enterLogEnter := other.exitLogExit, other.enterLogEnter;
      enterFlow, enterFlowLogEnterFlow := other.enterFlow, other.enterFlowLogEnterFlow;
      exitNetworkFlow, exitNetworkFlowLog := other.exitNetworkFlow, other.exitNetworkFlowLog;
    }

    ghost predicate SameAs(other: MapEquation)
      reads this, other
    {
      && code == other.code
      && codelength == other.codelength && indexCodelength == other.indexCodelength
      && moduleCodelength == other.moduleCodelength && nodeFlowLogNodeFlow == other.nodeFlowLogNodeFlow
      && flowLogFlow == other.flowLogFlow && exitLogExit == other.exitLogExit
      && enterLogEnter == other.enterLogEnter && enterFlow == other.enterFlow
      && enterFlowLogEnterFlow == other.enterFlowLogEnterFlow && exitNetworkFlow == other.exitNetworkFlow
      && exitNetworkFlowLog == other.exitNetworkFlowLog
    }
  }

  lemma {:induction false} TermSumEmpty(code: Code)
    ensures TermSum(EnterFlow, code, []) == TermSum(EnterLog, code, []) == 0.0
    ensures TermSum(ExitLog, code, []) == TermSum(FlowLog, code, []) == 0.0
  {
  }

  lemma {:induction false} TermAppend(term: Term, code: Code, nodes: seq<FlowData>, i: nat)
    requires i < |nodes|
    ensures TermSum(term, code, nodes[..i + 1]) == TermSum(term, code, nodes[..i]) + TermOf(term, code, nodes[i])
  {
    assert Terms(term, code, nodes[..i + 1])[..i] == Terms(term, code, nodes[..i]);
  }

  /** The terms of the two modules are the only ones a move touches. */
  lemma {:induction false} TermMoved(term: Term, code: Code, modules: seq<FlowData>, current: FlowData,
                                     oldDelta: DeltaFlow, newDelta: DeltaFlow)
    requires MoveOk(modules, oldDelta, newDelta)
    ensures var after := Moved(modules, current, oldDelta, newDelta);
            var o, n := oldDelta.moduleId, newDelta.moduleId;
            TermSum(term, code, after) == TermSum(term, code, modules)
              - TermOf(term, code, modules[o]) - TermOf(term, code, modules[n])
              + TermOf(term, code, after[o]) + TermOf(term, code, after[n])
  {
    SumTwo(Terms(term, code, modules), Terms(term, code, Moved(modules, current, oldDelta, newDelta)),
           oldDelta.moduleId, newDelta.moduleId);
  }

  /** The module terms before and after, with the arguments in the order the delta writes them. */
  lemma {:induction false} TermDelta(code: Code, modules: seq<FlowData>, current: FlowData,
                                     oldDelta: DeltaFlow, newDelta: DeltaFlow)
    requires MoveOk(modules, oldDelta, newDelta)
    ensures var after := Moved(modules, current, oldDelta, newDelta);
            var deltaOld, deltaNew := oldDelta.deltaEnter + oldDelta.deltaExit, newDelta.deltaEnter
                + newDelta.deltaExit;
            var oldM, newM := modules[oldDelta.moduleId], modules[newDelta.moduleId];
            && TermSum(EnterFlow, code, after) == TermSum(EnterFlow, code, modules) + deltaOld - deltaNew
            && TermSum(EnterLog, code, after) == TermSum(EnterLog, code, modules)
                 - code.PLogP(oldM.enterFlow) - code.PLogP(newM.enterFlow)
                 + code.PLogP(oldM.enterFlow - current.enterFlow + deltaOld)
                 + code.PLogP(newM.enterFlow + current.enterFlow - deltaNew)
            && TermSum(ExitLog, code, after) == TermSum(ExitLog, code, modules)
                 - code.PLogP(oldM.exitFlow) - code.PLogP(newM.exitFlow)
                 + code.PLogP(oldM.exitFlow - current.exitFlow + deltaOld)
                 + code.PLogP(newM.exitFlow + current.exitFlow - deltaNew)
            && TermSum(FlowLog, code, after) == TermSum(FlowLog, code, modules)
                 - code.PLogP(oldM.exitFlow + oldM.flow) - code.PLogP(newM.exitFlow + newM.flow)
                 + code.PLogP(oldM.exitFlow + oldM.flow - current.exitFlow - current.flow + deltaOld)
                 + code.PLogP(newM.exitFlow + newM.flow + current.exitFlow + current.flow - deltaNew)
  {
    hide TermSum, Code.PLogP;
    TermMoved(EnterFlow, code, modules, current, oldDelta, newDelta);
    TermMoved(EnterLog, code, modules, current, oldDelta, newDelta);
    TermMoved(ExitLog, code, modules, current, oldDelta, newDelta);
    TermMoved(FlowLog, code, modules, current, oldDelta, newDelta);
    var deltaOld, deltaNew := oldDelta.deltaEnter + oldDelta.deltaExit, newDelta.deltaEnter + newDelta.deltaExit;
    var before, after := modules[oldDelta.moduleId], modules[oldDelta.moduleId].Minus(current).Shift(oldDelta.Total());
    assert after.exitFlow + after.flow == before.exitFlow + before.flow - current.exitFlow - current.flow + deltaOld;
    before, after := modules[newDelta.moduleId], modules[newDelta.moduleId].Plus(current).Shift(-newDelta.Total());
    assert after.exitFlow + after.flow == before.exitFlow + before.flow + current.exitFlow + current.flow - deltaNew;
  }

  /** The predicted delta is the difference of two from-scratch codelengths. */
  lemma {:induction false} DeltaIsExact(objective: MapEquation, current: FlowData,
                                        oldDelta: DeltaFlow, newDelta: DeltaFlow, modules: seq<FlowData>)
    requires MoveOk(modules, oldDelta, newDelta) && objective.Tracks(modules)
    ensures objective.GetDeltaCodelengthOnMovingNode(current, oldDelta, newDelta, modules)
         == Codelength(objective.code, objective.exitNetworkFlow, objective.nodeFlowLogNodeFlow,
                       Moved(modules, current, oldDelta, newDelta))
            - Codelength(objective.code, objective.exitNetworkFlow, objective.nodeFlowLogNodeFlow, modules)
  {
    hide TermSum, Code.PLogP;
    TermDelta(objective.code, modules, current, oldDelta, newDelta);
    assert objective.exitNetworkFlow + TermSum(EnterFlow, objective.code, Moved(modules, current, oldDelta, newDelta))
        == objective.enterFlow + (oldDelta.deltaEnter + oldDelta.deltaExit) - (newDelta.deltaEnter
            + newDelta.deltaExit);
  }

  lemma {:induction false} TrackedCodelength(base: MapEquation, modules: seq<FlowData>)
    requires base.Tracks(modules)
    ensures base.codelength == Codelength(base.code, base.exitNetworkFlow, base.nodeFlowLogNodeFlow, modules)
  {
  }

  /** Hoisting the old side of the delta does not change it, whatever the state of the terms. */
  lemma {:induction false} HoistedIsUnhoisted(objective: MapEquation, current: FlowData,
                                              oldDelta: DeltaFlow, newDelta: DeltaFlow, modules: seq<FlowData>)
    requires MoveOk(modules, oldDelta, newDelta)
    ensures objective.GetDeltaCodelengthOnMovingNodeHoisted(
              objective.HoistOldSide(current, oldDelta, modules), newDelta, modules)
         == objective.GetDeltaCodelengthOnMovingNode(current, oldDelta, newDelta, modules)
  {
  }
}
