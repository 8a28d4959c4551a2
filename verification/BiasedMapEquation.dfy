/** The default objective: the map equation plus a cost for the number of modules and an entropy
    bias correction, both of which depend on how many modules are non-empty. */
module BiasedMapEquations {
  import opened Sums
  import opened FlowNetwork
  import opened MapEquations

  function NumActive(members: seq<nat>): int
  {
    |members| - NumZeros(members)
  }

  datatype BiasParameters = BiasParameters(
    preferredNumModules: nat,
    useEntropyBiasCorrection: bool,
    multiplier: real,
    totalDegree: real,
    numNodes: nat)
  {
    predicate On() { preferredNumModules != 0 || useEntropyBiasCorrection }

    function NumModuleCost(numModules: int): real
    {
      if preferredNumModules == 0 then 0.0
      else if numModules >= preferredNumModules then (numModules - preferredNumModules) as real
      else (preferredNumModules - numModules) as real
    }

    /** The cost of the number of modules is its distance to the preferred one. */
    lemma {:induction false} NumModuleCostMeans(numModules: int)
      requires preferredNumModules != 0
      ensures NumModuleCost(preferredNumModules) == 0.0 && NumModuleCost(numModules) >= 0.0
      ensures NumModuleCost(numModules) == 0.0 <==> numModules == preferredNumModules
      ensures numModules >= preferredNumModules ==> NumModuleCost(numModules + 1) == NumModuleCost(numModules) + 1.0
      ensures numModules <= preferredNumModules ==> NumModuleCost(numModules - 1) == NumModuleCost(numModules) + 1.0
    {
      assert (numModules + 1 - preferredNumModules) as real == (numModules - preferredNumModules) as real + 1.0;
      assert (preferredNumModules - (numModules - 1)) as real == (preferredNumModules - numModules) as real + 1.0;
    }

    function IndexEntropyBiasCorrection(numModules: int): real
      requires totalDegree != 0.0
    {
      if useEntropyBiasCorrection then multiplier * (numModules - 1) as real / (2.0 * totalDegree) else 0.0
    }

    function ModuleEntropyBiasCorrection(): real
      requires totalDegree != 0.0
    {
      if useEntropyBiasCorrection then multiplier * numNodes as real / (2.0 * totalDegree) else 0.0
    }

    function EntropyBiasCorrection(numModules: int): real
      requires totalDegree != 0.0
    {
      if useEntropyBiasCorrection then multiplier * (numModules - 1 + numNodes) as real / (2.0 * totalDegree) else 0.0
    }

    /** Everything the objective adds to the map equation for a partition with so many modules. */
    function Bias(numModules: int): real
      requires totalDegree != 0.0
    {
      NumModuleCost(numModules) + IndexEntropyBiasCorrection(numModules) + ModuleEntropyBiasCorrection()
    }

    lemma {:induction false} CorrectionSplits(numModules: int)
      requires totalDegree != 0.0
      ensures EntropyBiasCorrection(numModules)
           == IndexEntropyBiasCorrection(numModules) + ModuleEntropyBiasCorrection()
    {
      if useEntropyBiasCorrection {
        var a, b, d := (numModules - 1) as real, numNodes as real, 2.0 * totalDegree;
        assert multiplier * (a + b) == multiplier * a + multiplier * b;
        assert (numModules - 1 + numNodes) as real == a + b;
        assert (multiplier * a + multiplier * b) / d == multiplier * a / d + multiplier * b / d;
      }
    }

    /** A term that is switched off is zero for every number of modules. */
    lemma {:induction false} SwitchedOff(numModules: int)
      requires totalDegree != 0.0
      ensures preferredNumModules == 0 ==> NumModuleCost(numModules) == 0.0
      ensures !useEntropyBiasCorrection ==> IndexEntropyBiasCorrection(numModules) == 0.0
    {
    }
  }

  /** Change of the number of non-empty modules when a node moves. */
  function DeltaNumModules(members: seq<nat>, oldModule: nat, newModule: nat): int
    requires oldModule < |members| && newModule < |members|
  {
    var removeOld := members[oldModule] == 1;
    var createNew := members[newModule] == 0;
    if removeOld && !createNew then -1 else if !removeOld && createNew then 1 else 0
  }

  /** Membership after a move. */
  function MembersMoved(members: seq<nat>, oldModule: nat, newModule: nat): seq<nat>
    requires oldModule < |members| && newModule < |members| && oldModule != newModule
    requires members[oldModule] > 0
  {
    members[oldModule := members[oldModule] - 1][newModule := members[newModule] + 1]
  }

  /** The branch table of DeltaNumModules counts exactly the non-empty modules. */
  lemma {:induction false} NumActiveMoved(members: seq<nat>, oldModule: nat, newModule: nat)
    requires oldModule < |members| && newModule < |members| && oldModule != newModule
    requires members[oldModule] > 0
    ensures NumActive(MembersMoved(members, oldModule, newModule))
         == NumActive(members) + DeltaNumModules(members, oldModule, newModule)
  {
    var mid := members[oldModule := members[oldModule] - 1];
    NumZerosUpdate(members, oldModule, members[oldModule] - 1);
    NumZerosUpdate(mid, newModule, members[newModule] + 1);
  }

  class BiasedMapEquation {
    const base: MapEquation
    const bias: BiasParameters

    var currentNumModules: int
    var biasedCost: real
    var indexEntropyBiasCorrection: real
    var moduleEntropyBiasCorrection: real

    constructor (base: MapEquation, bias: BiasParameters)
      ensures this.base == base && this.bias == bias && currentNumModules == 0
      ensures biasedCost == indexEntropyBiasCorrection == moduleEntropyBiasCorrection == 0.0
    {
      this.base, this.bias := base, bias;
      currentNumModules, biasedCost, indexEntropyBiasCorrection, moduleEntropyBiasCorrection := 0, 0.0, 0.0, 0.0;
    }

    function GetCodelength(): real
      reads this, base
    {
      base.codelength + GetBias()
    }

    /** The bias terms belong to the number of non-empty modules. The count itself is kept
        up to date only while one of the terms is on. */
    ghost predicate BiasTracks(members: seq<nat>)
      reads this
    {
      && bias.totalDegree != 0.0
      && (bias.On() ==> currentNumModules == NumActive(members))
      && biasedCost == bias.NumModuleCost(NumActive(members))
      && indexEntropyBiasCorrection == bias.IndexEntropyBiasCorrection(NumActive(members))
      && moduleEntropyBiasCorrection == bias.ModuleEntropyBiasCorrection()
    }

    ghost predicate Tracks(modules: seq<FlowData>, members: seq<nat>)
      reads this, base
    {
      base.Tracks(modules) && BiasTracks(members)
    }

    function GetBias(): real
      reads this
    {
      biasedCost + (indexEntropyBiasCorrection + moduleEntropyBiasCorrection)
    }

    method InitPartition(nodes: seq<FlowData>, ghost members: seq<nat>)
      requires base.exitNetworkFlowLog == base.code.PLogP(base.exitNetworkFlow) && bias.totalDegree != 0.0
      requires |members| == |nodes| && NumZeros(members) == 0
      modifies this, base
      ensures Tracks(nodes, members)
      ensures base.exitNetworkFlow == old(base.exitNetworkFlow)
      ensures base.nodeFlowLogNodeFlow == old(base.nodeFlowLogNodeFlow)
    {
      base.CalculateCodelength(nodes);
      currentNumModules := |nodes|;
      biasedCost := bias.NumModuleCost(currentNumModules);
      indexEntropyBiasCorrection := bias.IndexEntropyBiasCorrection(currentNumModules);
      moduleEntropyBiasCorrection := bias.ModuleEntropyBiasCorrection();
    }

    function WithBias(deltaL: real, oldModule: nat, newModule: nat, members: seq<nat>): real
      requires oldModule < |members| && newModule < |members| && bias.totalDegree != 0.0
      reads this
    {
      if !bias.On() then deltaL
      else
        var numModules := currentNumModules + DeltaNumModules(members, oldModule, newModule);
        var deltaBiasedCost := if bias.preferredNumModules == 0 then 0.0
                               else bias.NumModuleCost(numModules) - biasedCost;
        var deltaEntropyBiasCorrection :=
          bias.EntropyBiasCorrection(numModules) - (indexEntropyBiasCorrection + moduleEntropyBiasCorrection);
        deltaL + deltaBiasedCost + deltaEntropyBiasCorrection
    }

    function GetDeltaCodelengthOnMovingNode(current: FlowData, oldDelta: DeltaFlow, newDelta: DeltaFlow,
                                            modules: seq<FlowData>, members: seq<nat>): real
      requires MoveOk(modules, oldDelta, newDelta) && |members| == |modules| && bias.totalDegree != 0.0
      reads this, base
    {
      WithBias(base.GetDeltaCodelengthOnMovingNode(current, oldDelta, newDelta, modules),
               oldDelta.moduleId, newDelta.moduleId, members)
    }

    function HoistOldSide(current: FlowData, oldDelta: DeltaFlow, modules: seq<FlowData>): OldSideTerms
      requires oldDelta.moduleId < |modules|
      reads this, base
    {
      base.HoistOldSide(current, oldDelta, modules)
    }

    function GetDeltaCodelengthOnMovingNodeHoisted(oldDelta: DeltaFlow, oldSide: OldSideTerms, newDelta: DeltaFlow,
                                                   modules: seq<FlowData>, members: seq<nat>): real
      requires MoveOk(modules, oldDelta, newDelta) && |members| == |modules| && bias.totalDegree != 0.0
      reads this, base
    {
      WithBias(base.GetDeltaCodelengthOnMovingNodeHoisted(oldSide, newDelta, modules),
               oldDelta.moduleId, newDelta.moduleId, members)
    }

    method UpdateCodelengthOnMovingNode(current: FlowData, oldDelta: DeltaFlow, newDelta: DeltaFlow,
                                        modules: seq<FlowData>, members: seq<nat>)
      returns (moduleFlowData: seq<FlowData>)
      requires MoveOk(modules, oldDelta, newDelta) && |members| == |modules| && members[oldDelta.moduleId] > 0
      requires Tracks(modules, members)
      modifies this, base
      ensures moduleFlowData == Moved(modules, current, oldDelta, newDelta)
      ensures Tracks(moduleFlowData, MembersMoved(members, oldDelta.moduleId, newDelta.moduleId))
      ensures GetCodelength()
           == old(GetCodelength() + GetDeltaCodelengthOnMovingNode(current, oldDelta, newDelta, modules, members))
      ensures base.exitNetworkFlow == old(base.exitNetworkFlow)
      ensures base.nodeFlowLogNodeFlow == old(base.nodeFlowLogNodeFlow)
    {
      hide MapEquation.Tracks, MapEquation.GetDeltaCodelengthOnMovingNode, BiasedMapEquation.BiasTracks,
           BiasedMapEquation.WithBias, BiasedMapEquation.GetBias, MembersMoved, Moved;
      ghost var deltaL := base.GetDeltaCodelengthOnMovingNode(current, oldDelta, newDelta, modules);
      moduleFlowData := base.UpdateCodelengthOnMovingNode(current, oldDelta, newDelta, modules);
      UpdateBiasOnMovingNode(oldDelta.moduleId, newDelta.moduleId, members, deltaL);
    }

    /** The part of the update that concerns the number of modules. */
    method UpdateBiasOnMovingNode(oldModule: nat, newModule: nat, members: seq<nat>, ghost deltaL: real)
      requires oldModule < |members| && newModule < |members| && oldModule != newModule && members[oldModule] > 0
      requires BiasTracks(members)
      modifies `currentNumModules, `biasedCost, `indexEntropyBiasCorrection, `moduleEntropyBiasCorrection
      ensures BiasTracks(MembersMoved(members, oldModule, newModule))
      ensures old(WithBias(deltaL, oldModule, newModule, members)) == deltaL + GetBias() - old(GetBias())
    {
      ghost var after := NumActive(MembersMoved(members, oldModule, newModule));
      NumActiveMoved(members, oldModule, newModule);
      bias.CorrectionSplits(after);
      bias.SwitchedOff(NumActive(members));
      bias.SwitchedOff(after);
      hide BiasParameters.EntropyBiasCorrection, BiasParameters.IndexEntropyBiasCorrection,
           BiasParameters.ModuleEntropyBiasCorrection, BiasParameters.NumModuleCost, MembersMoved, NumActive;
      if !bias.On() {
        return;
      }
      var deltaNumModules := DeltaNumModules(members, oldModule, newModule);
      currentNumModules := currentNumModules + deltaNumModules;
      if bias.preferredNumModules != 0 {
        biasedCost := bias.NumModuleCost(currentNumModules);
      }
      indexEntropyBiasCorrection := bias.IndexEntropyBiasCorrection(currentNumModules);
      moduleEntropyBiasCorrection := bias.ModuleEntropyBiasCorrection();
    }

    /** The count of consolidated modules; it is what the count of moves has arrived at. */
    method ConsolidateModules(numModules: int, ghost modules: seq<FlowData>, ghost members: seq<nat>)
      requires Tracks(modules, members) && numModules == NumActive(members)
      modifies `currentNumModules
      ensures Tracks(modules, members) && currentNumModules == NumActive(members)
      ensures GetCodelength() == old(GetCodelength())
    {
      hide MapEquation.Tracks;
      currentNumModules := numModules;
    }

    method CopyFrom(other: BiasedMapEquation)
      requires other.base.code == base.code && other.bias == bias && other != this && other.base != base
      modifies this, base
      ensures SameAs(other)
    {
      base.CopyFrom(other.base);
      currentNumModules, biasedCost := other.currentNumModules, other.biasedCost;
      indexEntropyBiasCorrection := other.indexEntropyBiasCorrection;
      moduleEntropyBiasCorrection := other.moduleEntropyBiasCorrection;
    }

    ghost predicate SameAs(other: BiasedMapEquation)
      reads this, base, other, other.base
    {
      && base.SameAs(other.base) && bias == other.bias
      && currentNumModules == other.currentNumModules && biasedCost == other.biasedCost
      && indexEntropyBiasCorrection == other.indexEntropyBiasCorrection
      && moduleEntropyBiasCorrection == other.moduleEntropyBiasCorrection
    }
  }

  /** Hoisting the old side out of the candidate loop does not change the delta. */
  lemma {:induction false} HoistedBiasedIsUnhoisted(objective: BiasedMapEquation, current: FlowData,
                                                    oldDelta: DeltaFlow,
                                                    newDelta: DeltaFlow, modules: seq<FlowData>, members: seq<nat>)
    requires MoveOk(modules, oldDelta, newDelta) && |members| == |modules| && objective.bias.totalDegree != 0.0
    ensures objective.GetDeltaCodelengthOnMovingNodeHoisted(
              oldDelta, objective.HoistOldSide(current, oldDelta, modules), newDelta, modules, members)
         == objective.GetDeltaCodelengthOnMovingNode(current, oldDelta, newDelta, modules, members)
  {
    HoistedIsUnhoisted(objective.base, current, oldDelta, newDelta, modules);
  }

  /** The bias part of the delta is the difference of the bias terms for the two numbers of modules. */
  lemma {:induction false} WithBiasIsExact(objective: BiasedMapEquation, deltaL: real, oldModule: nat, newModule: nat,
                                           members: seq<nat>)
    requires oldModule < |members| && newModule < |members| && oldModule != newModule && members[oldModule] > 0
    requires objective.BiasTracks(members)
    ensures objective.WithBias(deltaL, oldModule, newModule, members)
         == deltaL + objective.bias.Bias(NumActive(MembersMoved(members, oldModule, newModule)))
            - objective.bias.Bias(NumActive(members))
  {
    var bias, before, after := objective.bias, NumActive(members),
        NumActive(MembersMoved(members, oldModule, newModule));
    NumActiveMoved(members, oldModule, newModule);
    bias.CorrectionSplits(before);
    bias.CorrectionSplits(after);
    bias.SwitchedOff(before);
    bias.SwitchedOff(after);
    hide BiasParameters.EntropyBiasCorrection, BiasParameters.IndexEntropyBiasCorrection,
         BiasParameters.ModuleEntropyBiasCorrection, BiasParameters.NumModuleCost, MembersMoved, NumActive;
  }

  /** The predicted delta is the difference of two from-scratch codelengths with bias. */
  lemma {:induction false} BiasedDeltaIsExact(objective: BiasedMapEquation, current: FlowData, oldDelta: DeltaFlow,
                                              newDelta: DeltaFlow, modules: seq<FlowData>, members: seq<nat>)
    requires MoveOk(modules, oldDelta, newDelta) && |members| == |modules| && members[oldDelta.moduleId] > 0
    requires objective.Tracks(modules, members)
    ensures var base, bias := objective.base, objective.bias;
            objective.GetDeltaCodelengthOnMovingNode(current, oldDelta, newDelta, modules, members)
            == Codelength(base.code, base.exitNetworkFlow, base.nodeFlowLogNodeFlow,
                          Moved(modules, current, oldDelta, newDelta))
               + bias.Bias(NumActive(MembersMoved(members, oldDelta.moduleId, newDelta.moduleId)))
               - (Codelength(base.code, base.exitNetworkFlow, base.nodeFlowLogNodeFlow, modules)
                  + bias.Bias(NumActive(members)))
  {
    hide MapEquation.GetDeltaCodelengthOnMovingNode, MapEquation.Tracks, Codelength, BiasedMapEquation.WithBias,
         BiasedMapEquation.BiasTracks, Moved, MembersMoved, NumActive, BiasParameters.Bias;
    DeltaIsExact(objective.base, current, oldDelta, newDelta, modules);
    BiasTracksDegree(objective, members);
    WithBiasIsExact(objective, objective.base.GetDeltaCodelengthOnMovingNode(current, oldDelta, newDelta, modules),
                    oldDelta.moduleId, newDelta.moduleId, members);
  }

  lemma {:induction false} BiasTracksDegree(objective: BiasedMapEquation, members: seq<nat>)
    requires objective.BiasTracks(members)
    ensures objective.bias.totalDegree != 0.0
  {
  }
}
