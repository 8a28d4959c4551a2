/** The objective of a partition, from scratch, and the facts about it that do not depend on how
    the optimizer computes it. */
module Partitions {
  import opened Sums
  import opened FlowNetwork
  import opened MapEquations
  import opened BiasedMapEquations

  /** What stays the same while one leaf network is being clustered. */
  datatype Setting = Setting(code: Code, bias: BiasParameters, exitNetworkFlow: real, nodeFlowLog: real)

  function AllMembers(index: seq<nat>, numModules: nat): (r: seq<nat>)
    ensures |r| == numModules
    ensures forall m :: 0 <= m < numModules ==> r[m] == Count(index, m)
  {
    seq(numModules, (m: nat) => Count(index, m))
  }

  function NumModules(net: Network, index: seq<nat>): int
  {
    NumActive(AllMembers(index, |net.nodes|))
  }

  /** The number the optimizer minimises, as a function of the partition alone. */
  function Objective(setting: Setting, net: Network, index: seq<nat>): real
    requires net.Valid() && |net.nodes| == |index| && setting.bias.totalDegree != 0.0
  {
    Codelength(setting.code, setting.exitNetworkFlow, setting.nodeFlowLog, AllModuleData(net, index))
    + setting.bias.Bias(NumModules(net, index))
  }

  function Identity(n: nat): (r: seq<nat>)
    ensures |r| == n
    ensures forall i :: 0 <= i < n ==> r[i] == i
  {
    seq(n, (i: nat) => i)
  }

  ghost predicate Distinct(ids: seq<nat>)
  {
    forall i, j :: 0 <= i < j < |ids| ==> ids[i] != ids[j]
  }

  // ----- Moves -----

  lemma {:induction false} AllMembersMove(index: seq<nat>, a: nat, to: nat, n: nat)
    requires a < |index| && index[a] < n && to < n && index[a] != to
    ensures AllMembers(index, n)[index[a]] > 0
    ensures AllMembers(index[a := to], n) == MembersMoved(AllMembers(index, n), index[a], to)
  {
    CountZero(index, index[a]);
    forall m | 0 <= m < n
      ensures AllMembers(index[a := to], n)[m] == MembersMoved(AllMembers(index, n), index[a], to)[m]
    {
      CountMove(index, a, to, m);
    }
  }

  /** Shifting the module data by the flow between the node and the two modules gives the module
      data of the new partition. */
  lemma {:induction false} AllModuleDataMove(net: Network, index: seq<nat>, a: nat, oldDelta: DeltaFlow,
                                             newDelta: DeltaFlow)
    requires net.Valid() && net.Partition(index) && a < |index|
    requires oldDelta.moduleId == index[a] && newDelta.moduleId < |index| && newDelta.moduleId != index[a]
    requires oldDelta.Total() == FlowBetween(net, index, a, oldDelta.moduleId)
    requires newDelta.Total() == FlowBetween(net, index, a, newDelta.moduleId)
    ensures Moved(AllModuleData(net, index), net.nodes[a], oldDelta, newDelta)
         == AllModuleData(net, index[a := newDelta.moduleId])
  {
    forall m | 0 <= m < |index|
      ensures Moved(AllModuleData(net, index), net.nodes[a], oldDelta, newDelta)[m]
           == AllModuleData(net, index[a := newDelta.moduleId])[m]
    {
      ModuleDataMove(net, index, a, newDelta.moduleId, m);
    }
  }

  /** The incrementally kept vectors equal their from-scratch values on the partition. */
  ghost predicate Kept(net: Network, index: seq<nat>, modules: seq<FlowData>, members: seq<nat>)
  {
    && net.Valid() && net.Partition(index)
    && modules == AllModuleData(net, index)
    && members == AllMembers(index, |net.nodes|)
  }

  lemma {:induction false} KeptSizes(net: Network, index: seq<nat>, modules: seq<FlowData>, members: seq<nat>)
    requires Kept(net, index, modules, members)
    ensures |index| == |net.nodes| == |modules| == |members|
    ensures forall i :: 0 <= i < |index| ==> index[i] < |index| && members[index[i]] > 0
    ensures forall m :: 0 <= m < |index| ==> members[m] == Count(index, m)
  {
    forall i | 0 <= i < |index| ensures members[index[i]] > 0 {
      CountZero(index, index[i]);
    }
  }

  lemma {:induction false} KeptValid(net: Network, index: seq<nat>, modules: seq<FlowData>, members: seq<nat>)
    requires Kept(net, index, modules, members)
    ensures net.Valid() && net.Partition(index)
  {
  }

  /** A delta that states all the flow between a node and one module. */
  ghost predicate ExactDelta(net: Network, index: seq<nat>, a: nat, delta: DeltaFlow)
  {
    && net.Valid() && net.Partition(index) && a < |index| && delta.moduleId < |index|
    && delta.Total() == FlowBetween(net, index, a, delta.moduleId)
  }

  function Ones(n: nat): (r: seq<nat>)
    ensures |r| == n
    ensures forall i :: 0 <= i < n ==> r[i] == 1
  {
    seq(n, (i: nat) => 1)
  }

  /** One module per node: the nodes' own data, one member each, no empty module. */
  lemma {:induction false} KeptSingletons(net: Network)
    requires net.Valid()
    ensures Kept(net, Identity(|net.nodes|), net.nodes, Ones(|net.nodes|))
    ensures NumZeros(Ones(|net.nodes|)) == 0
  {
    var n := |net.nodes|;
    forall i | 0 <= i < n
      ensures AllModuleData(net, Identity(n))[i] == net.nodes[i] && Count(Identity(n), i) == 1
    {
      ModuleDataSingle(net, Identity(n), i);
      CountDistinct(Identity(n), i);
    }
    NoZeros(Ones(n));
  }

  /** One move with exact deltas keeps every vector exact. */
  lemma {:induction false} KeptByMove(net: Network, index: seq<nat>, modules: seq<FlowData>, members: seq<nat>,
                                      a: nat, oldDelta: DeltaFlow, newDelta: DeltaFlow)
    requires Kept(net, index, modules, members)
    requires ExactDelta(net, index, a, oldDelta) && ExactDelta(net, index, a, newDelta)
    requires oldDelta.moduleId == index[a] && newDelta.moduleId != index[a]
    ensures a < |index| == |net.nodes| == |modules| == |members| && MoveOk(modules, oldDelta, newDelta)
    ensures members[oldDelta.moduleId] > 0
    ensures Kept(net, index[a := newDelta.moduleId], Moved(modules, net.nodes[a], oldDelta, newDelta),
                 MembersMoved(members, oldDelta.moduleId, newDelta.moduleId))
  {
    AllModuleDataMove(net, index, a, oldDelta, newDelta);
    AllMembersMove(index, a, newDelta.moduleId, |net.nodes|);
  }

  // ----- Dropping and renaming modules -----

  /** Terms that are picked by distinct ids, with zeros everywhere else, have the same sum. */
  lemma {:induction false} SumSelect(xs: seq<real>, ids: seq<nat>, ys: seq<real>)
    requires Distinct(ids) && |ys| == |ids|
    requires forall j :: 0 <= j < |ids| ==> ids[j] < |xs| && ys[j] == xs[ids[j]]
    requires forall m :: 0 <= m < |xs| && m !in ids ==> xs[m] == 0.0
    ensures Sum(ys) == Sum(xs)
    decreases |ids|
  {
    if ids == [] {
      SumZero(xs);
    } else {
      var k := |ids| - 1;
      var rest := xs[ids[k] := 0.0];
      forall m | 0 <= m < |rest| && m !in ids[..k] ensures rest[m] == 0.0 {
        assert ids == ids[..k] + [ids[k]];
      }
      SumSelect(rest, ids[..k], ys[..k]);
      SumOne(xs, rest, ids[k]);
    }
  }

  /** Modules that hold no flow add nothing to any running sum. */
  lemma {:induction false} TermSumSelect(term: Term, code: Code, modules: seq<FlowData>, ids: seq<nat>,
                                         picked: seq<FlowData>)
    requires code.PLogP(0.0) == 0.0
    requires Distinct(ids) && |picked| == |ids|
    requires forall j :: 0 <= j < |ids| ==> ids[j] < |modules| && picked[j] == modules[ids[j]]
    requires forall m :: 0 <= m < |modules| && m !in ids ==> modules[m] == ZERO_FLOW
    ensures TermSum(term, code, picked) == TermSum(term, code, modules)
  {
    SumSelect(Terms(term, code, modules), ids, Terms(term, code, picked));
  }

  lemma {:induction false} CodelengthSelect(setting: Setting, modules: seq<FlowData>, ids: seq<nat>,
                                            picked: seq<FlowData>)
    requires setting.code.PLogP(0.0) == 0.0
    requires Distinct(ids) && |picked| == |ids|
    requires forall j :: 0 <= j < |ids| ==> ids[j] < |modules| && picked[j] == modules[ids[j]]
    requires forall m :: 0 <= m < |modules| && m !in ids ==> modules[m] == ZERO_FLOW
    ensures Codelength(setting.code, setting.exitNetworkFlow, setting.nodeFlowLog, picked)
         == Codelength(setting.code, setting.exitNetworkFlow, setting.nodeFlowLog, modules)
  {
    forall term: Term ensures TermSum(term, setting.code, picked) == TermSum(term, setting.code, modules) {
      TermSumSelect(term, setting.code, modules, ids, picked);
    }
    hide TermSum;
    assert TermSum(EnterFlow, setting.code, picked) == TermSum(EnterFlow, setting.code, modules);
    assert TermSum(EnterLog, setting.code, picked) == TermSum(EnterLog, setting.code, modules);
    assert TermSum(ExitLog, setting.code, picked) == TermSum(ExitLog, setting.code, modules);
    assert TermSum(FlowLog, setting.code, picked) == TermSum(FlowLog, setting.code, modules);
  }

  /** Picking all non-zero counts keeps the number of non-empty modules. */
  lemma {:induction false} NumActiveSelect(members: seq<nat>, ids: seq<nat>)
    requires Distinct(ids)
    requires forall j :: 0 <= j < |ids| ==> ids[j] < |members| && members[ids[j]] > 0
    requires forall m :: 0 <= m < |members| && m !in ids ==> members[m] == 0
    ensures NumActive(members) == |ids|
    decreases |ids|
  {
    if ids == [] {
      AllZeros(members);
    } else {
      var k := |ids| - 1;
      var rest := members[ids[k] := 0];
      forall m | 0 <= m < |rest| && m !in ids[..k] ensures rest[m] == 0 {
        assert ids == ids[..k] + [ids[k]];
      }
      NumActiveSelect(rest, ids[..k]);
      NumZerosUpdate(members, ids[k], 0);
    }
  }

  const NO_BIAS := BiasParameters(0, false, 0.0, 1.0, 0)

  lemma {:induction false} WithoutBias(setting: Setting, net: Network, index: seq<nat>)
    requires net.Valid() && |net.nodes| == |index| && setting.bias == NO_BIAS
    ensures Objective(setting, net, index)
         == Codelength(setting.code, setting.exitNetworkFlow, setting.nodeFlowLog, AllModuleData(net, index))
  {
    hide Codelength, NumModules;
  }

  lemma {:induction false} AllZeros(members: seq<nat>)
    requires forall m :: 0 <= m < |members| ==> members[m] == 0
    ensures NumZeros(members) == |members|
  {
    if members != [] { AllZeros(members[..|members| - 1]); }
  }

  lemma {:induction false} NoZeros(members: seq<nat>)
    requires forall m :: 0 <= m < |members| ==> members[m] > 0
    ensures NumZeros(members) == 0
  {
    if members != [] { NoZeros(members[..|members| - 1]); }
  }

  // ----- Renaming modules does not change the objective -----

  /** With every node alone in its module, whatever the names of the modules, the objective is
      that of the initial partition. */
  lemma {:induction false} ObjectiveOfSingletons(setting: Setting, net: Network, index: seq<nat>)
    requires net.Valid() && net.Partition(index) && Distinct(index)
    requires setting.code.PLogP(0.0) == 0.0 && setting.bias.totalDegree != 0.0
    ensures AllModuleData(net, Identity(|index|)) == net.nodes
    ensures NumModules(net, index) == |index|
    ensures Objective(setting, net, index) == Objective(setting, net, Identity(|index|))
    ensures Objective(setting, net, index)
         == Codelength(setting.code, setting.exitNetworkFlow, setting.nodeFlowLog, net.nodes)
             + setting.bias.Bias(|index|)
  {
    hide Objective, NumModules, Codelength, BiasParameters.Bias, ModuleData;
    SingletonsAs(setting, net, index);
    SingletonsAs(setting, net, Identity(|index|));
    SingletonModules(net);
  }

  lemma {:induction false} SingletonModules(net: Network)
    requires net.Valid()
    ensures AllModuleData(net, Identity(|net.nodes|)) == net.nodes
  {
    hide ModuleData;
    forall i | 0 <= i < |net.nodes| ensures AllModuleData(net, Identity(|net.nodes|))[i] == net.nodes[i] {
      ModuleDataSingle(net, Identity(|net.nodes|), i);
    }
  }

  lemma {:induction false} SingletonsAs(setting: Setting, net: Network, index: seq<nat>)
    requires net.Valid() && net.Partition(index) && Distinct(index)
    requires setting.code.PLogP(0.0) == 0.0 && setting.bias.totalDegree != 0.0
    ensures NumModules(net, index) == |index|
    ensures Objective(setting, net, index)
         == Codelength(setting.code, setting.exitNetworkFlow, setting.nodeFlowLog, net.nodes)
             + setting.bias.Bias(|index|)
  {
    var modules := AllModuleData(net, index);
    forall i | 0 <= i < |index| ensures net.nodes[i] == modules[index[i]] {
      ModuleDataSingle(net, index, i);
    }
    forall m | 0 <= m < |modules| && m !in index ensures modules[m] == ZERO_FLOW {
      ModuleDataEmpty(net, index, m);
    }
    CodelengthSelect(setting, modules, index, net.nodes);
    var members := AllMembers(index, |net.nodes|);
    forall m | 0 <= m < |members| ensures members[m] == 0 <==> m !in index {
      CountZero(index, m);
    }
    NumActiveSelect(members, index);
  }

  /** A change of the objective from the initial partition needs two nodes in one module. */
  lemma {:induction false} ImprovementMerges(setting: Setting, net: Network, index: seq<nat>)
    requires net.Valid() && net.Partition(index)
    requires setting.code.PLogP(0.0) == 0.0 && setting.bias.totalDegree != 0.0
    requires Objective(setting, net, index) != Objective(setting, net, Identity(|index|))
    ensures NumModules(net, index) < |index|
  {
    if Distinct(index) {
      ObjectiveOfSingletons(setting, net, index);
    } else {
      var i, j :| 0 <= i < j < |index| && index[i] == index[j];
      EmptySlot(index, |index|, i, j);
    }
  }

  /** Pigeonhole: two nodes in one module leave some module empty. */
  lemma {:induction false} EmptySlot(index: seq<nat>, n: nat, i: nat, j: nat)
    requires i < j < |index| == n && index[i] == index[j]
    requires forall k :: 0 <= k < n ==> index[k] < n
    ensures NumActive(AllMembers(index, n)) < n
  {
    var members := AllMembers(index, n);
    if forall m :: 0 <= m < n ==> members[m] > 0 {
      TotalMembers(index, n);
      CountOne(index, i, j);
      BigTotal(members, index[i]);
      assert false;
    } else {
      var m :| 0 <= m < n && members[m] == 0;
      NumZerosBound(members, m);
    }
  }

  function Total(members: seq<nat>): nat
  {
    if members == [] then 0 else Total(members[..|members| - 1]) + members[|members| - 1]
  }

  lemma {:induction false} TotalUpdate(members: seq<nat>, a: nat, v: nat)
    requires a < |members|
    ensures Total(members[a := v]) == Total(members) - members[a] + v
  {
    var n := |members| - 1;
    if a == n {
      assert members[a := v][..n] == members[..n];
    } else {
      assert members[a := v][..n] == members[..n][a := v];
      TotalUpdate(members[..n], a, v);
    }
  }

  /** Every node is a member of exactly one module. */
  lemma {:induction false} TotalMembers(index: seq<nat>, n: nat)
    requires forall k :: 0 <= k < |index| ==> index[k] < n
    ensures Total(AllMembers(index, n)) == |index|
  {
    if index == [] {
      ZeroTotal(AllMembers(index, n));
    } else {
      var k := |index| - 1;
      var before := AllMembers(index[..k], n);
      TotalMembers(index[..k], n);
      assert AllMembers(index, n) == before[index[k] := before[index[k]] + 1];
      TotalUpdate(before, index[k], before[index[k]] + 1);
    }
  }

  lemma {:induction false} ZeroTotal(members: seq<nat>)
    requires forall m :: 0 <= m < |members| ==> members[m] == 0
    ensures Total(members) == 0
  {
    if members != [] { ZeroTotal(members[..|members| - 1]); }
  }

  lemma {:induction false} BigTotal(members: seq<nat>, a: nat)
    requires a < |members| && members[a] >= 2
    requires forall m :: 0 <= m < |members| ==> members[m] > 0
    ensures Total(members) > |members|
  {
    var n := |members| - 1;
    if a == n {
      TotalAtLeast(members[..n]);
    } else {
      BigTotal(members[..n], a);
    }
  }

  lemma {:induction false} TotalAtLeast(members: seq<nat>)
    requires forall m :: 0 <= m < |members| ==> members[m] > 0
    ensures Total(members) >= |members|
  {
    if members != [] { TotalAtLeast(members[..|members| - 1]); }
  }

  // ----- The objective is bounded below on one network -----

  /** The least value of f over all ways to complete a prefix to n entries below n. */
  ghost function Lowest(f: seq<nat> -> real, n: nat, prefix: seq<nat>): real
    requires |prefix| <= n
    decreases n - |prefix|, n + 1
  {
    if |prefix| == n then f(prefix) else LowestOver(f, n, prefix, n - 1)
  }

  ghost function LowestOver(f: seq<nat> -> real, n: nat, prefix: seq<nat>, v: nat): real
    requires |prefix| < n && v < n
    decreases n - |prefix|, v
  {
    var here := Lowest(f, n, prefix + [v]);
    if v == 0 then here
    else
      var below := LowestOver(f, n, prefix, v - 1);
      if here < below then here else below
  }

  lemma {:induction false} LowestIsBound(f: seq<nat> -> real, n: nat, prefix: seq<nat>, index: seq<nat>)
    requires |prefix| <= n == |index| && prefix <= index
    requires forall i :: 0 <= i < n ==> index[i] < n
    ensures Lowest(f, n, prefix) <= f(index)
    decreases n - |prefix|, n + 1
  {
    if |prefix| == n {
      assert prefix == index;
    } else {
      LowestOverIsBound(f, n, prefix, n - 1, index);
    }
  }

  lemma {:induction false} LowestOverIsBound(f: seq<nat> -> real, n: nat, prefix: seq<nat>, v: nat, index: seq<nat>)
    requires |prefix| < n == |index| && prefix <= index && index[|prefix|] <= v < n
    requires forall i :: 0 <= i < n ==> index[i] < n
    ensures LowestOver(f, n, prefix, v) <= f(index)
    decreases n - |prefix|, v
  {
    if index[|prefix|] == v {
      LowestIsBound(f, n, prefix + [v], index);
    } else {
      LowestOverIsBound(f, n, prefix, v - 1, index);
    }
  }

  /** The lowest value is that of a completion. */
  lemma {:induction false} LowestAttained(f: seq<nat> -> real, n: nat, prefix: seq<nat>) returns (index: seq<nat>)
    requires |prefix| <= n && forall i :: 0 <= i < |prefix| ==> prefix[i] < n
    ensures |index| == n && prefix <= index && forall i :: 0 <= i < n ==> index[i] < n
    ensures f(index) == Lowest(f, n, prefix)
    decreases n - |prefix|, n + 1
  {
    if |prefix| == n {
      index := prefix;
    } else {
      index := LowestOverAttained(f, n, prefix, n - 1);
    }
  }

  lemma {:induction false} LowestOverAttained(f: seq<nat> -> real, n: nat, prefix: seq<nat>, v: nat)
    returns (index: seq<nat>)
    requires |prefix| < n && v < n && forall i :: 0 <= i < |prefix| ==> prefix[i] < n
    ensures |index| == n && prefix <= index && forall i :: 0 <= i < n ==> index[i] < n
    ensures f(index) == LowestOver(f, n, prefix, v)
    decreases n - |prefix|, v
  {
    index := LowestAttained(f, n, prefix + [v]);
    if v > 0 {
      var below := LowestOverAttained(f, n, prefix, v - 1);
      if f(index) >= f(below) {
        index := below;
      }
    }
  }

  ghost function LowestObjective(setting: Setting, net: Network): real
    requires net.Valid() && setting.bias.totalDegree != 0.0
  {
    Lowest((index: seq<nat>) => if net.Partition(index) then Objective(setting, net, index) else 0.0, |net.nodes|, [])
  }

  ghost function HighestObjective(setting: Setting, net: Network): real
    requires net.Valid() && setting.bias.totalDegree != 0.0
  {
    -Lowest((index: seq<nat>) => if net.Partition(index) then -Objective(setting, net, index) else 0.0,
            |net.nodes|, [])
  }

  /** The objective of every partition is between the lowest and the highest. */
  lemma {:induction false} ObjectiveBounded(setting: Setting, net: Network, index: seq<nat>)
    requires net.Valid() && setting.bias.totalDegree != 0.0 && net.Partition(index)
    ensures LowestObjective(setting, net) <= Objective(setting, net, index)
                                          <= HighestObjective(setting, net)
  {
    var f := (i: seq<nat>) => if net.Partition(i) then Objective(setting, net, i) else 0.0;
    LowestIsBound(f, |net.nodes|, [], index);
    var g := (i: seq<nat>) => if net.Partition(i) then -Objective(setting, net, i) else 0.0;
    LowestIsBound(g, |net.nodes|, [], index);
  }

  /** There is a partition of the least objective, and one of the greatest, as there are finitely many. */
  lemma {:induction false} ObjectiveAttained(setting: Setting, net: Network)
    returns (least: seq<nat>, greatest: seq<nat>)
    requires net.Valid() && setting.bias.totalDegree != 0.0
    ensures net.Partition(least) && Objective(setting, net, least) == LowestObjective(setting, net)
    ensures net.Partition(greatest) && Objective(setting, net, greatest) == HighestObjective(setting, net)
  {
    var f := (i: seq<nat>) => if net.Partition(i) then Objective(setting, net, i) else 0.0;
    least := LowestAttained(f, |net.nodes|, []);
    var g := (i: seq<nat>) => if net.Partition(i) then -Objective(setting, net, i) else 0.0;
    greatest := LowestAttained(g, |net.nodes|, []);
  }

  // ----- Descending by more than a threshold -----

  ghost function StepsLeft(codelength: real, lowest: real, threshold: real): int
    requires threshold > 0.0
  {
    ((codelength - lowest) / threshold).Floor
  }

  /** What so many steps of more than the threshold fall at least. */
  function Fall(steps: nat, threshold: real): real
  {
    steps as real * threshold
  }

  lemma {:induction false} FallMore(steps: nat, threshold: real)
    ensures Fall(0, threshold) == 0.0 && Fall(steps + 1, threshold) == Fall(steps, threshold) + threshold
  {
    assert (steps + 1) as real == steps as real + 1.0;
  }

  /** The steps left fit into the distance to the lowest value. */
  lemma {:induction false} StepsFit(codelength: real, lowest: real, threshold: real, steps: nat)
    requires threshold > 0.0 && steps <= StepsLeft(codelength, lowest, threshold)
    ensures Fall(steps, threshold) <= codelength - lowest
  {
    var quotient := (codelength - lowest) / threshold;
    assert steps as real <= quotient;
    assert quotient * threshold == codelength - lowest;
    assert (quotient - steps as real) * threshold >= 0.0;
    assert (quotient - steps as real) * threshold == quotient * threshold - steps as real * threshold;
  }

  lemma {:induction false} StepsNonNegative(codelength: real, lowest: real, threshold: real)
    requires threshold > 0.0 && lowest <= codelength
    ensures StepsLeft(codelength, lowest, threshold) >= 0
  {
  }

  lemma {:induction false} StepTaken(before: real, after: real, lowest: real, threshold: real)
    requires threshold > 0.0 && lowest <= after <= before - threshold
    ensures 0 <= StepsLeft(after, lowest, threshold) < StepsLeft(before, lowest, threshold)
  {
    assert (before - lowest) / threshold == (after - lowest) / threshold + (before - after) / threshold;
    assert (before - after) / threshold >= 1.0;
  }
}
