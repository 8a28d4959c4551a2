/** The lossy objective: every module may be coded as noise, with one codeword for all its nodes.
    That saves the module's loss l and costs its share H of the entropy rate, weighed by lambda. The
    objective picks the cheaper type for each module, and keeps three running sums to do so. */
module LossyMapEquations {
  import opened Sums
  import opened FlowNetwork
  import opened MapEquations
  import opened Partitions

  /** What a node carries up from the leaves below it. */
  datatype LossyData = LossyData(entropy: real, flowLogFlow: real)

  function Entropies(nodes: seq<LossyData>): (r: seq<real>)
    ensures |r| == |nodes| && forall i :: 0 <= i < |nodes| ==> r[i] == nodes[i].entropy
  {
    seq(|nodes|, i requires 0 <= i < |nodes| => nodes[i].entropy)
  }

  function FlowLogs(nodes: seq<LossyData>): (r: seq<real>)
    ensures |r| == |nodes| && forall i :: 0 <= i < |nodes| ==> r[i] == nodes[i].flowLogFlow
  {
    seq(|nodes|, i requires 0 <= i < |nodes| => nodes[i].flowLogFlow)
  }

  /** Sums of the members of every module. */
  function AllLossyData(nodes: seq<LossyData>, index: seq<nat>): (r: seq<LossyData>)
    requires |nodes| == |index|
    ensures |r| == |index|
    ensures forall m :: 0 <= m < |r| ==>
              r[m] == LossyData(Members(Entropies(nodes), index, m), Members(FlowLogs(nodes), index, m))
  {
    seq(|index|, (m: nat) => LossyData(Members(Entropies(nodes), index, m), Members(FlowLogs(nodes), index, m)))
  }

  datatype LossyCode = LossyCode(code: Code, lambda: real)
  {
    /** Naming overhead that a shared codeword removes. */
    function CalcLoss(flow: real, flowLogFlow: real): real
    {
      code.PLogP(flow) - flowLogFlow
    }

    function CalcCorrection(flow: real, d: LossyData): real
    {
      var saved := CalcLoss(flow, d.flowLogFlow) - lambda * d.entropy;
      if saved > 0.0 then saved else 0.0
    }

    predicate IsNoise(flow: real, d: LossyData)
    {
      CalcCorrection(flow, d) > 0.0
    }
  }

  datatype LossyTerm = Saved | NoiseLoss | NoiseEntropy

  /** What one module contributes to each of the three sums. */
  function LossyTermOf(term: LossyTerm, code: LossyCode, flow: real, d: LossyData): real
  {
    match term
    case Saved => code.CalcCorrection(flow, d)
    case NoiseLoss => if code.IsNoise(flow, d) then code.CalcLoss(flow, d.flowLogFlow) else 0.0
    case NoiseEntropy => if code.IsNoise(flow, d) then d.entropy else 0.0
  }

  function LossyTerms(term: LossyTerm, code: LossyCode, modules: seq<FlowData>, lossy: seq<LossyData>): (r: seq<real>)
    requires |modules| == |lossy|
    ensures |r| == |modules|
    ensures forall m :: 0 <= m < |r| ==> r[m] == LossyTermOf(term, code, modules[m].flow, lossy[m])
  {
    seq(|modules|, m requires 0 <= m < |modules| => LossyTermOf(term, code, modules[m].flow, lossy[m]))
  }

  function LossySum(term: LossyTerm, code: LossyCode, modules: seq<FlowData>, lossy: seq<LossyData>): real
    requires |modules| == |lossy|
  {
    Sum(LossyTerms(term, code, modules, lossy))
  }

  // ----- Any other choice of types -----

  /** A part of every module, summed over the modules typed as noise. */
  function TypedPart(part: LossyTerm, code: LossyCode, modules: seq<FlowData>, lossy: seq<LossyData>,
                     noise: seq<bool>): real
    requires |modules| == |lossy| == |noise|
  {
    if modules == [] then 0.0
    else
      var n := |modules| - 1;
      TypedPart(part, code, modules[..n], lossy[..n], noise[..n])
      + (if !noise[n] then 0.0
         else match part
              case Saved => code.CalcLoss(modules[n].flow, lossy[n].flowLogFlow) - code.lambda * lossy[n].entropy
              case NoiseLoss => code.CalcLoss(modules[n].flow, lossy[n].flowLogFlow)
              case NoiseEntropy => lossy[n].entropy)
  }

  /** Codewords for visits: those of the nodes, with one word instead of the members' own for every noise module. */
  function VisitWords(code: Code, nodeFlowLog: real, modules: seq<FlowData>, lossy: seq<LossyData>,
                      noise: seq<bool>): real
    requires |modules| == |lossy| == |noise|
  {
    if modules == [] then nodeFlowLog
    else
      var n := |modules| - 1;
      VisitWords(code, nodeFlowLog, modules[..n], lossy[..n], noise[..n])
      + (if noise[n] then code.PLogP(modules[n].flow) - lossy[n].flowLogFlow else 0.0)
  }

  /** What is not told of the walk: the entropy of the members of the noise modules. */
  function Distortion(lossy: seq<LossyData>, noise: seq<bool>): real
    requires |lossy| == |noise|
  {
    if lossy == [] then 0.0
    else
      var n := |lossy| - 1;
      Distortion(lossy[..n], noise[..n]) + (if noise[n] then lossy[n].entropy else 0.0)
  }

  /** Codelength with one word for the members of every noise module. */
  function Rate(code: LossyCode, exitNetworkFlow: real, nodeFlowLog: real, modules: seq<FlowData>,
                lossy: seq<LossyData>, noise: seq<bool>): real
    requires |modules| == |lossy| == |noise|
  {
    Codelength(code.code, exitNetworkFlow, VisitWords(code.code, nodeFlowLog, modules, lossy, noise), modules)
  }

  /** Rate plus lambda times distortion, for a partition and a choice of noise modules. */
  function RateDistortion(code: LossyCode, exitNetworkFlow: real, nodeFlowLog: real, modules: seq<FlowData>,
                          lossy: seq<LossyData>, noise: seq<bool>): real
    requires |modules| == |lossy| == |noise|
  {
    Rate(code, exitNetworkFlow, nodeFlowLog, modules, lossy, noise) + code.lambda * Distortion(lossy, noise)
  }

  /** The losses of the noise modules are what their shared words save, and distortion is their entropy. */
  lemma {:induction false} LossesAreSaved(code: LossyCode, exitNetworkFlow: real, nodeFlowLog: real,
                                          modules: seq<FlowData>, lossy: seq<LossyData>, noise: seq<bool>)
    requires |modules| == |lossy| == |noise|
    ensures Rate(code, exitNetworkFlow, nodeFlowLog, modules, lossy, noise)
         == Codelength(code.code, exitNetworkFlow, nodeFlowLog, modules)
            - TypedPart(NoiseLoss, code, modules, lossy, noise)
    ensures Distortion(lossy, noise) == TypedPart(NoiseEntropy, code, modules, lossy, noise)
  {
    WordsSaved(code, nodeFlowLog, modules, lossy, noise);
    hide TermSum, IndexCodelength, TypedPart, VisitWords, Distortion;
  }

  lemma {:induction false} WordsSaved(code: LossyCode, nodeFlowLog: real, modules: seq<FlowData>,
                                      lossy: seq<LossyData>, noise: seq<bool>)
    requires |modules| == |lossy| == |noise|
    ensures VisitWords(code.code, nodeFlowLog, modules, lossy, noise)
         == nodeFlowLog + TypedPart(NoiseLoss, code, modules, lossy, noise)
    ensures Distortion(lossy, noise) == TypedPart(NoiseEntropy, code, modules, lossy, noise)
  {
    hide Code.PLogP;
    if modules != [] {
      var n := |modules| - 1;
      WordsSaved(code, nodeFlowLog, modules[..n], lossy[..n], noise[..n]);
    }
  }

  /** The types the objective chooses: noise exactly where the loss exceeds lambda times the entropy. */
  function NoiseModules(code: LossyCode, modules: seq<FlowData>, lossy: seq<LossyData>): (r: seq<bool>)
    requires |modules| == |lossy|
    ensures |r| == |modules|
    ensures forall m :: 0 <= m < |r| ==>
              (r[m] <==> code.CalcLoss(modules[m].flow, lossy[m].flowLogFlow) > code.lambda * lossy[m].entropy)
  {
    seq(|modules|, m requires 0 <= m < |modules| => code.IsNoise(modules[m].flow, lossy[m]))
  }

  lemma {:induction false} TypedSavings(code: LossyCode, modules: seq<FlowData>, lossy: seq<LossyData>,
                                        noise: seq<bool>)
    requires |modules| == |lossy| == |noise|
    ensures TypedPart(Saved, code, modules, lossy, noise)
         == TypedPart(NoiseLoss, code, modules, lossy, noise) - code.lambda * TypedPart(NoiseEntropy, code, modules,
             lossy, noise)
    ensures TypedPart(Saved, code, modules, lossy, noise) <= LossySum(Saved, code, modules, lossy)
  {
    if modules != [] {
      var n := |modules| - 1;
      TypedSavings(code, modules[..n], lossy[..n], noise[..n]);
      var rest, h := TypedPart(NoiseEntropy, code, modules[..n], lossy[..n], noise[..n]), lossy[n].entropy;
      assert code.lambda * (rest + h) == code.lambda * rest + code.lambda * h;
      LossySumLast(Saved, code, modules, lossy);
      hide Code.PLogP;
    }
  }

  lemma {:induction false} LossySumLast(term: LossyTerm, code: LossyCode, modules: seq<FlowData>, lossy: seq<LossyData>)
    requires |modules| == |lossy| > 0
    ensures var n := |modules| - 1;
            LossySum(term, code, modules, lossy)
            == LossySum(term, code, modules[..n], lossy[..n]) + LossyTermOf(term, code, modules[n].flow, lossy[n])
  {
    var n := |modules| - 1;
    assert LossyTerms(term, code, modules, lossy)[..n] == LossyTerms(term, code, modules[..n], lossy[..n]);
  }

  /** The three sums range over exactly the modules chosen as noise. */
  lemma {:induction false} ChosenTypes(code: LossyCode, modules: seq<FlowData>, lossy: seq<LossyData>)
    requires |modules| == |lossy|
    ensures forall term: LossyTerm ::
              LossySum(term, code, modules, lossy)
                  == TypedPart(term, code, modules, lossy, NoiseModules(code, modules, lossy))
  {
    forall term: LossyTerm
      ensures LossySum(term, code, modules, lossy)
                == TypedPart(term, code, modules, lossy, NoiseModules(code, modules, lossy))
    {
      if modules != [] {
        var n := |modules| - 1;
        ChosenTypes(code, modules[..n], lossy[..n]);
        LossySumLast(term, code, modules, lossy);
        assert NoiseModules(code, modules, lossy)[..n] == NoiseModules(code, modules[..n], lossy[..n]);
      }
    }
  }

  lemma {:induction false} RateIsSavings(code: LossyCode, exitNetworkFlow: real, nodeFlowLog: real,
                                         modules: seq<FlowData>, lossy: seq<LossyData>, noise: seq<bool>)
    requires |modules| == |lossy| == |noise|
    ensures var full := Codelength(code.code, exitNetworkFlow, nodeFlowLog, modules);
            var rate := RateDistortion(code, exitNetworkFlow, nodeFlowLog, modules, lossy, noise);
            && rate == full - TypedPart(Saved, code, modules, lossy, noise)
            && full - LossySum(Saved, code, modules, lossy) <= rate
  {
    hide TypedPart, LossySum, Rate, Codelength, Distortion;
    LossesAreSaved(code, exitNetworkFlow, nodeFlowLog, modules, lossy, noise);
    TypedSavings(code, modules, lossy, noise);
  }

  /** Full codelength minus the corrections is the codelength with shared words in the chosen modules plus lambda
      times their entropy, and no choice of types does better. */
  lemma {:induction false} MinimumOverTypes(code: LossyCode, exitNetworkFlow: real, nodeFlowLog: real,
                                            modules: seq<FlowData>, lossy: seq<LossyData>)
    requires |modules| == |lossy|
    ensures var full := Codelength(code.code, exitNetworkFlow, nodeFlowLog, modules);
            var chosen := NoiseModules(code, modules, lossy);
            && full - LossySum(NoiseLoss, code, modules, lossy)
               == Rate(code, exitNetworkFlow, nodeFlowLog, modules, lossy, chosen)
            && LossySum(NoiseEntropy, code, modules, lossy) == Distortion(lossy, chosen)
            && full - LossySum(Saved, code, modules, lossy)
               == RateDistortion(code, exitNetworkFlow, nodeFlowLog, modules, lossy, chosen)
    ensures forall noise: seq<bool> :: |noise| == |modules| ==>
              Codelength(code.code, exitNetworkFlow, nodeFlowLog, modules) - LossySum(Saved, code, modules, lossy)
              <= RateDistortion(code, exitNetworkFlow, nodeFlowLog, modules, lossy, noise)
  {
    hide TypedPart, LossySum, RateDistortion, Rate, Codelength, Distortion;
    var chosen := NoiseModules(code, modules, lossy);
    ChosenTypes(code, modules, lossy);
    RateIsSavings(code, exitNetworkFlow, nodeFlowLog, modules, lossy, chosen);
    LossesAreSaved(code, exitNetworkFlow, nodeFlowLog, modules, lossy, chosen);
    assert LossySum(Saved, code, modules, lossy) == TypedPart(Saved, code, modules, lossy, chosen);
    assert LossySum(NoiseEntropy, code, modules, lossy) == TypedPart(NoiseEntropy, code, modules, lossy, chosen);
    assert LossySum(NoiseLoss, code, modules, lossy) == TypedPart(NoiseLoss, code, modules, lossy, chosen);
    forall noise: seq<bool> | |noise| == |modules|
      ensures Codelength(code.code, exitNetworkFlow, nodeFlowLog, modules) - LossySum(Saved, code, modules, lossy)
           <= RateDistortion(code, exitNetworkFlow, nodeFlowLog, modules, lossy, noise)
    {
      RateIsSavings(code, exitNetworkFlow, nodeFlowLog, modules, lossy, noise);
    }
  }

  // ----- One move -----

  function LossyMoved(lossy: seq<LossyData>, current: LossyData, oldM: nat, newM: nat): seq<LossyData>
    requires oldM < |lossy| && newM < |lossy| && oldM != newM
  {
    lossy[oldM := LossyData(lossy[oldM].entropy - current.entropy, lossy[oldM].flowLogFlow - current.flowLogFlow)]
         [newM := LossyData(lossy[newM].entropy + current.entropy, lossy[newM].flowLogFlow + current.flowLogFlow)]
  }

  /** Moving the member moves its data. */
  lemma {:induction false} AllLossyDataMove(nodes: seq<LossyData>, index: seq<nat>, a: nat, to: nat)
    requires |nodes| == |index| && a < |index| && index[a] < |index| && to < |index| && index[a] != to
    ensures AllLossyData(nodes, index[a := to]) == LossyMoved(AllLossyData(nodes, index), nodes[a], index[a], to)
  {
    var after, moved := AllLossyData(nodes, index[a := to]), LossyMoved(AllLossyData(nodes, index), nodes[a], index[a],
        to);
    forall m | 0 <= m < |index| ensures after[m] == moved[m] {
      MembersMove(Entropies(nodes), index, a, to, m);
      MembersMove(FlowLogs(nodes), index, a, to, m);
    }
  }

  lemma {:induction false} LossySumMoved(term: LossyTerm, code: LossyCode, modules: seq<FlowData>,
                                         lossy: seq<LossyData>,
                                         modules': seq<FlowData>, lossy': seq<LossyData>, o: nat, n: nat)
    requires |modules| == |lossy| == |modules'| == |lossy'| && o < |modules| && n < |modules| && o != n
    requires forall m :: 0 <= m < |modules| && m != o && m != n ==> modules[m] == modules'[m] && lossy[m] == lossy'[m]
    ensures LossySum(term, code, modules', lossy') == LossySum(term, code, modules, lossy)
            - LossyTermOf(term, code, modules[o].flow, lossy[o]) - LossyTermOf(term, code, modules[n].flow, lossy[n])
            + LossyTermOf(term, code, modules'[o].flow, lossy'[o])
                + LossyTermOf(term, code, modules'[n].flow, lossy'[n])
  {
    SumTwo(LossyTerms(term, code, modules, lossy), LossyTerms(term, code, modules', lossy'), o, n);
  }

  // ----- The objective -----

  /** The number the optimizer minimises, as a function of the partition alone. */
  function LossyObjective(code: LossyCode, exitNetworkFlow: real, nodeFlowLog: real, net: Network,
                          nodes: seq<LossyData>, index: seq<nat>): real
    requires net.Valid() && |net.nodes| == |index| == |nodes|
  {
    Codelength(code.code, exitNetworkFlow, nodeFlowLog, AllModuleData(net, index))
    - LossySum(Saved, code, AllModuleData(net, index), AllLossyData(nodes, index))
  }

  class LossyMapEquation {
    const base: MapEquation
    const lambda: real

    var moduleLossy: seq<LossyData>
    var sumCorrection: real
    var sumNoiseLoss: real
    var sumNoiseEntropy: real

    constructor (base: MapEquation, lambda: real)
      ensures this.base == base && this.lambda == lambda && moduleLossy == []
      ensures sumCorrection == sumNoiseLoss == sumNoiseEntropy == 0.0
    {
      this.base, this.lambda := base, lambda;
      moduleLossy, sumCorrection, sumNoiseLoss, sumNoiseEntropy := [], 0.0, 0.0, 0.0;
    }

    function Coding(): LossyCode
    {
      LossyCode(base.code, lambda)
    }

    function GetCodelength(): real
      reads this, base
    {
      base.codelength - sumCorrection
    }

    function GetLossyRate(): real
      reads this, base
    {
      base.codelength - sumNoiseLoss
    }

    function GetLossyDistortion(): real
      reads this
    {
      sumNoiseEntropy
    }

    ghost predicate SumsTrack(modules: seq<FlowData>)
      reads this
    {
      && |moduleLossy| == |modules|
      && sumCorrection == LossySum(Saved, Coding(), modules, moduleLossy)
      && sumNoiseLoss == LossySum(NoiseLoss, Coding(), modules, moduleLossy)
      && sumNoiseEntropy == LossySum(NoiseEntropy, Coding(), modules, moduleLossy)
    }

    ghost predicate Tracks(modules: seq<FlowData>, nodes: seq<LossyData>, index: seq<nat>)
      reads this, base
    {
      && base.Tracks(modules) && |nodes| == |index| && moduleLossy == AllLossyData(nodes, index) && SumsTrack(modules)
    }

    /** In every state that tracks its partition, rate and distortion are those of the code with one word for the
        members of every chosen module, the codelength is rate plus lambda times distortion, and no choice of types
        makes it shorter. */
    lemma {:induction false} CodelengthIsMinimum(modules: seq<FlowData>, nodes: seq<LossyData>, index: seq<nat>)
      requires Tracks(modules, nodes, index)
      ensures |modules| == |moduleLossy|
      ensures var chosen := NoiseModules(Coding(), modules, moduleLossy);
              && GetLossyRate()
                 == Rate(Coding(), base.exitNetworkFlow, base.nodeFlowLogNodeFlow, modules, moduleLossy, chosen)
              && GetLossyDistortion() == Distortion(moduleLossy, chosen)
              && GetCodelength() == GetLossyRate() + lambda * GetLossyDistortion()
      ensures forall noise: seq<bool> :: |noise| == |modules| ==>
                GetCodelength()
                <= RateDistortion(Coding(), base.exitNetworkFlow, base.nodeFlowLogNodeFlow, modules, moduleLossy, noise)
    {
      hide LossySum, Rate, Codelength, AllLossyData, Distortion, TermSum;
      MinimumOverTypes(Coding(), base.exitNetworkFlow, base.nodeFlowLogNodeFlow, modules, moduleLossy);
    }

    method InitPartition(modules: seq<FlowData>, nodes: seq<LossyData>)
      requires |modules| == |nodes|
      requires base.exitNetworkFlowLog == base.code.PLogP(base.exitNetworkFlow)
      modifies this, base
      ensures Tracks(modules, nodes, Identity(|nodes|))
      ensures base.exitNetworkFlow == old(base.exitNetworkFlow)
                && base.nodeFlowLogNodeFlow == old(base.nodeFlowLogNodeFlow)
    {
      hide MapEquation.Tracks, LossySum, LossyTermOf;
      base.CalculateCodelength(modules);
      moduleLossy := [];
      sumCorrection, sumNoiseLoss, sumNoiseEntropy := 0.0, 0.0, 0.0;
      LossySumNone(Coding());
      assert modules[..0] == [] && nodes[..0] == [];
      for i := 0 to |modules|
        invariant moduleLossy == nodes[..i] && SumsTrack(modules[..i])
        modifies this
      {
        moduleLossy := moduleLossy + [nodes[i]];
        LossySumNext(Coding(), modules, nodes, i);
        AddModuleTerms(modules[i].flow, nodes[i]);
      }
      assert modules[..|modules|] == modules && nodes[..|nodes|] == nodes;
      SingletonData(nodes);
    }

    method RemoveModuleTerms(flow: real, d: LossyData)
      modifies `sumCorrection, `sumNoiseLoss, `sumNoiseEntropy
      ensures sumCorrection == old(sumCorrection) - LossyTermOf(Saved, Coding(), flow, d)
      ensures sumNoiseLoss == old(sumNoiseLoss) - LossyTermOf(NoiseLoss, Coding(), flow, d)
      ensures sumNoiseEntropy == old(sumNoiseEntropy) - LossyTermOf(NoiseEntropy, Coding(), flow, d)
    {
      var c := Coding().CalcCorrection(flow, d);
      if c > 0.0 {
        sumCorrection := sumCorrection - c;
        sumNoiseLoss := sumNoiseLoss - Coding().CalcLoss(flow, d.flowLogFlow);
        sumNoiseEntropy := sumNoiseEntropy - d.entropy;
      }
    }

    method AddModuleTerms(flow: real, d: LossyData)
      modifies `sumCorrection, `sumNoiseLoss, `sumNoiseEntropy
      ensures sumCorrection == old(sumCorrection) + LossyTermOf(Saved, Coding(), flow, d)
      ensures sumNoiseLoss == old(sumNoiseLoss) + LossyTermOf(NoiseLoss, Coding(), flow, d)
      ensures sumNoiseEntropy == old(sumNoiseEntropy) + LossyTermOf(NoiseEntropy, Coding(), flow, d)
    {
      var c := Coding().CalcCorrection(flow, d);
      if c > 0.0 {
        sumCorrection := sumCorrection + c;
        sumNoiseLoss := sumNoiseLoss + Coding().CalcLoss(flow, d.flowLogFlow);
        sumNoiseEntropy := sumNoiseEntropy + d.entropy;
      }
    }

    /** Increase of the corrections of two modules when data moves between them. */
    function CorrectionChange(flow: real, d: LossyData, oldM: nat, newM: nat, modules: seq<FlowData>): real
      requires oldM < |modules| == |moduleLossy| && newM < |modules|
      reads this
    {
      var o, n := moduleLossy[oldM], moduleLossy[newM];
      var corrBefore := Coding().CalcCorrection(modules[oldM].flow, o) + Coding().CalcCorrection(modules[newM].flow, n);
      var corrAfter :=
        Coding().CalcCorrection(modules[oldM].flow - flow,
            LossyData(o.entropy - d.entropy, o.flowLogFlow - d.flowLogFlow))
        + Coding().CalcCorrection(modules[newM].flow + flow,
            LossyData(n.entropy + d.entropy, n.flowLogFlow + d.flowLogFlow));
      corrAfter - corrBefore
    }

    function GetDeltaCodelengthOnMovingNode(current: FlowData, d: LossyData, oldDelta: DeltaFlow, newDelta: DeltaFlow,
                                            modules: seq<FlowData>): real
      requires MoveOk(modules, oldDelta, newDelta) && |modules| == |moduleLossy|
      reads this, base
    {
      base.GetDeltaCodelengthOnMovingNode(current, oldDelta, newDelta, modules)
      - CorrectionChange(current.flow, d, oldDelta.moduleId, newDelta.moduleId, modules)
    }

    function GetDeltaCodelengthOnMovingNodeHoisted(current: FlowData, d: LossyData, oldDelta: DeltaFlow,
                                                   oldSide: OldSideTerms,
                                                   newDelta: DeltaFlow, modules: seq<FlowData>): real
      requires MoveOk(modules, oldDelta, newDelta) && |modules| == |moduleLossy|
      reads this, base
    {
      base.GetDeltaCodelengthOnMovingNodeHoisted(oldSide, newDelta, modules)
      - CorrectionChange(current.flow, d, oldDelta.moduleId, newDelta.moduleId, modules)
    }

    /** The move: the terms of both modules are taken out, and put back with the new data. */
    method UpdateCodelengthOnMovingNode(current: FlowData, d: LossyData, oldDelta: DeltaFlow, newDelta: DeltaFlow,
                                        modules: seq<FlowData>, ghost nodes: seq<LossyData>, ghost index: seq<nat>,
                                            ghost a: nat)
      returns (moduleFlowData: seq<FlowData>)
      requires MoveOk(modules, oldDelta, newDelta) && Tracks(modules, nodes, index) && |modules| == |index|
      requires a < |index| && index[a] == oldDelta.moduleId && d == nodes[a]
      modifies this, base
      ensures moduleFlowData == Moved(modules, current, oldDelta, newDelta)
      ensures Tracks(moduleFlowData, nodes, index[a := newDelta.moduleId])
      ensures GetCodelength()
           == old(GetCodelength() + GetDeltaCodelengthOnMovingNode(current, d, oldDelta, newDelta, modules))
      ensures base.exitNetworkFlow == old(base.exitNetworkFlow)
                && base.nodeFlowLogNodeFlow == old(base.nodeFlowLogNodeFlow)
    {
      hide MapEquation.Tracks, MapEquation.GetDeltaCodelengthOnMovingNode, LossySum, LossyTermOf,
           LossyCode.CalcCorrection,
           Moved, LossyMoved, AllLossyData;
      var oldM, newM := oldDelta.moduleId, newDelta.moduleId;
      ghost var before := moduleLossy;
      AllLossyDataMove(nodes, index, a, newM);
      RemoveModuleTerms(modules[oldM].flow, moduleLossy[oldM]);
      RemoveModuleTerms(modules[newM].flow, moduleLossy[newM]);

      moduleFlowData := base.UpdateCodelengthOnMovingNode(current, oldDelta, newDelta, modules);

      moduleLossy := LossyMoved(moduleLossy, d, oldM, newM);
      MovedParts(modules, current, oldDelta, newDelta, before, d);
      SavedIs(Coding());
      LossySumMoved(Saved, Coding(), modules, before, moduleFlowData, moduleLossy, oldM, newM);
      LossySumMoved(NoiseLoss, Coding(), modules, before, moduleFlowData, moduleLossy, oldM, newM);
      LossySumMoved(NoiseEntropy, Coding(), modules, before, moduleFlowData, moduleLossy, oldM, newM);

      AddModuleTerms(moduleFlowData[oldM].flow, moduleLossy[oldM]);
      AddModuleTerms(moduleFlowData[newM].flow, moduleLossy[newM]);
    }

    /** Leaf sums for the consolidated nodes. */
    method ConsolidateModules(ids: seq<nat>) returns (nodes: seq<LossyData>)
      requires forall j :: 0 <= j < |ids| ==> ids[j] < |moduleLossy|
      ensures |nodes| == |ids| && forall j :: 0 <= j < |ids| ==> nodes[j] == moduleLossy[ids[j]]
    {
      var all := moduleLossy;
      nodes := seq(|ids|, j requires 0 <= j < |ids| => all[ids[j]]);
    }
  }

  lemma {:induction false} SavedIs(code: LossyCode)
    ensures forall flow: real, d: LossyData :: LossyTermOf(Saved, code, flow, d) == code.CalcCorrection(flow, d)
  {
  }

  lemma {:induction false} MovedParts(modules: seq<FlowData>, current: FlowData, oldDelta: DeltaFlow,
                                      newDelta: DeltaFlow,
                                      lossy: seq<LossyData>, d: LossyData)
    requires MoveOk(modules, oldDelta, newDelta) && |lossy| == |modules|
    ensures var o, n, after, lossy' :=
              oldDelta.moduleId, newDelta.moduleId, Moved(modules, current, oldDelta, newDelta),
                                       LossyMoved(lossy, d, oldDelta.moduleId, newDelta.moduleId);
            && |after| == |modules| == |lossy'|
            && (forall m :: 0 <= m < |modules| && m != o && m != n ==> after[m] == modules[m] && lossy'[m] == lossy[m])
            && after[o].flow == modules[o].flow - current.flow && after[n].flow == modules[n].flow + current.flow
            && lossy'[o] == LossyData(lossy[o].entropy - d.entropy, lossy[o].flowLogFlow - d.flowLogFlow)
            && lossy'[n] == LossyData(lossy[n].entropy + d.entropy, lossy[n].flowLogFlow + d.flowLogFlow)
  {
  }

  lemma {:induction false} LossySumNone(code: LossyCode)
    ensures LossySum(Saved, code, [], []) == LossySum(NoiseLoss, code, [], []) == LossySum(NoiseEntropy, code, [], [])
              == 0.0
  {
  }

  lemma {:induction false} LossySumNext(code: LossyCode, modules: seq<FlowData>, lossy: seq<LossyData>, i: nat)
    requires |modules| == |lossy| && i < |modules|
    ensures forall term: LossyTerm ::
              LossySum(term, code, modules[..i + 1], lossy[..i + 1])
              == LossySum(term, code, modules[..i], lossy[..i]) + LossyTermOf(term, code, modules[i].flow, lossy[i])
    ensures lossy[..i + 1] == lossy[..i] + [lossy[i]]
  {
    hide LossyTermOf, LossySum;
    forall term: LossyTerm
      ensures LossySum(term, code, modules[..i + 1], lossy[..i + 1])
           == LossySum(term, code, modules[..i], lossy[..i]) + LossyTermOf(term, code, modules[i].flow, lossy[i])
    {
      LossySumLast(term, code, modules[..i + 1], lossy[..i + 1]);
      assert modules[..i + 1][..i] == modules[..i] && lossy[..i + 1][..i] == lossy[..i];
    }
  }

  lemma {:induction false} SingletonData(nodes: seq<LossyData>)
    ensures AllLossyData(nodes, Identity(|nodes|)) == nodes
  {
    forall m | 0 <= m < |nodes| ensures AllLossyData(nodes, Identity(|nodes|))[m] == nodes[m] {
      MembersSingle(Entropies(nodes), Identity(|nodes|), m);
      MembersSingle(FlowLogs(nodes), Identity(|nodes|), m);
    }
  }

  /** Hoisting the old side out of the candidate loop does not change the delta. */
  lemma {:induction false} HoistedLossyIsUnhoisted(objective: LossyMapEquation, current: FlowData, d: LossyData,
                                                   oldDelta: DeltaFlow,
                                                   newDelta: DeltaFlow, modules: seq<FlowData>)
    requires MoveOk(modules, oldDelta, newDelta) && |modules| == |objective.moduleLossy|
    ensures objective.GetDeltaCodelengthOnMovingNodeHoisted(
              current, d, oldDelta, objective.base.HoistOldSide(current, oldDelta, modules), newDelta, modules)
         == objective.GetDeltaCodelengthOnMovingNode(current, d, oldDelta, newDelta, modules)
  {
    HoistedIsUnhoisted(objective.base, current, oldDelta, newDelta, modules);
  }

  /** A prediction is the difference of two lossy codelengths from scratch. */
  lemma {:induction false} LossyDeltaIsExact(objective: LossyMapEquation, current: FlowData, d: LossyData,
                                             oldDelta: DeltaFlow, newDelta: DeltaFlow, modules: seq<FlowData>,
                                             nodes: seq<LossyData>, index: seq<nat>, a: nat)
    requires objective.Tracks(modules, nodes, index) && |modules| == |index|
    requires MoveOk(modules, oldDelta, newDelta) && a < |index| && index[a] == oldDelta.moduleId && d == nodes[a]
    ensures objective.GetDeltaCodelengthOnMovingNode(current, d, oldDelta, newDelta, modules)
         == Codelength(objective.base.code, objective.base.exitNetworkFlow, objective.base.nodeFlowLogNodeFlow,
                       Moved(modules, current, oldDelta, newDelta))
            - LossySum(Saved, objective.Coding(), Moved(modules, current, oldDelta, newDelta),
                       AllLossyData(nodes, index[a := newDelta.moduleId]))
            - objective.GetCodelength()
  {
    hide MapEquation.Tracks, Codelength, LossySum, LossyTermOf, LossyCode.CalcCorrection, Moved, LossyMoved,
         AllLossyData, MapEquation.GetDeltaCodelengthOnMovingNode;
    var oldM, newM := oldDelta.moduleId, newDelta.moduleId;
    var lossy := objective.moduleLossy;
    DeltaIsExact(objective.base, current, oldDelta, newDelta, modules);
    TrackedCodelength(objective.base, modules);
    AllLossyDataMove(nodes, index, a, newM);
    MovedParts(modules, current, oldDelta, newDelta, lossy, d);
    SavedIs(objective.Coding());
    LossySumMoved(Saved, objective.Coding(), modules, lossy, Moved(modules, current, oldDelta, newDelta),
                  LossyMoved(lossy, d, oldM, newM), oldM, newM);
  }
}
