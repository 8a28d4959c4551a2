/** What the two numbers of a node in the lossy objective are for: the flow logs make the loss of a module the naming
    cost of its members, and the entropies are those of a step of the walk. */
module LossyMeaning {
  import opened Sums
  import opened FlowNetwork
  import opened MapEquations
  import opened Logarithms
  import opened LossyMapEquations

  // ----- The loss of a module -----

  /** Naming a member within a module of the given flow: its surprise, in proportion to the flow of the module. */
  ghost function NamingCosts(log: real -> real, flows: seq<real>, total: real): (r: seq<real>)
    requires total > 0.0
    ensures |r| == |flows| && forall i :: 0 <= i < |r| ==> r[i] == total * Surprise(log, flows[i] / total)
  {
    seq(|flows|, i requires 0 <= i < |flows| => total * Surprise(log, flows[i] / total))
  }

  /** Costs are flow times the logarithm of the total, less the flow logs. */
  ghost predicate Costs(costs: real, flow: real, l: real, logs: real)
  {
    costs == flow * l - logs
  }

  lemma {:induction false} CostsAdd(costs: real, flow: real, l: real, logs: real, cost: real, x: real, word: real)
    requires Costs(costs, flow, l, logs) && Costs(cost, x, l, word)
    ensures Costs(costs + cost, flow + x, l, logs + word)
  {
    assert (flow + x) * l == flow * l + x * l;
  }

  lemma {:induction false} CostsMean(costs: real, flow: real, l: real, logs: real)
    requires Costs(costs, flow, l, logs)
    ensures costs == flow * l - logs
  {
  }

  lemma {:induction false} NoCosts(l: real)
    ensures Costs(0.0, 0.0, l, 0.0)
  {
  }

  lemma {:induction false} CostsOfMembers(code: Code, log: real -> real, flows: seq<real>, index: seq<nat>, m: nat,
                                          total: real)
    requires IsPLogP(code, log) && total > 0.0 && |flows| == |index|
    requires forall i :: 0 <= i < |flows| ==> flows[i] >= 0.0
    ensures Costs(Members(NamingCosts(log, flows, total), index, m), Members(flows, index, m), log(total),
                  Members(Logs(code, flows), index, m))
  {
    hide IsPLogP, Surprise, Code.PLogP, Costs;
    var l := log(total);
    NoCosts(l);
    if flows != [] {
      var n := |flows| - 1;
      var costs, logs := NamingCosts(log, flows, total), Logs(code, flows);
      Prefixes(code, log, flows, total, n);
      CostsOfMembers(code, log, flows[..n], index[..n], m, total);
      if index[n] == m {
        CostOfOne(code, log, flows[n], total);
        CostsAdd(Members(costs[..n], index[..n], m), Members(flows[..n], index[..n], m), l,
                 Members(logs[..n], index[..n], m), costs[n], flows[n], logs[n]);
      }
    }
  }

  lemma {:induction false} Prefixes(code: Code, log: real -> real, flows: seq<real>, total: real, n: nat)
    requires total > 0.0 && n <= |flows|
    ensures NamingCosts(log, flows, total)[..n] == NamingCosts(log, flows[..n], total)
    ensures Logs(code, flows)[..n] == Logs(code, flows[..n])
  {
    hide Surprise, Code.PLogP;
    var costs, before := NamingCosts(log, flows, total), NamingCosts(log, flows[..n], total);
    forall i | 0 <= i < n ensures costs[..n][i] == before[i] {
      assert flows[..n][i] == flows[i];
    }
    assert costs[..n] == before;
  }

  lemma {:induction false} CostOfOne(code: Code, log: real -> real, x: real, total: real)
    requires IsPLogP(code, log) && total > 0.0 && x >= 0.0
    ensures Costs(total * Surprise(log, x / total), x, log(total), code.PLogP(x))
  {
    SurpriseOfShare(code, log, x, total);
  }

  /** The loss of a module is what naming its members costs beyond the one word for the module. */
  lemma {:induction false} LossIsNaming(code: LossyCode, log: real -> real, flows: seq<real>, index: seq<nat>, m: nat)
    requires IsPLogP(code.code, log) && |flows| == |index|
    requires forall i :: 0 <= i < |flows| ==> flows[i] >= 0.0
    ensures var total, loss :=
              Members(flows, index, m),
              code.CalcLoss(Members(flows, index, m), Members(Logs(code.code, flows), index, m));
            && loss == (if total > 0.0 then Members(NamingCosts(log, flows, total), index, m) else 0.0)
            && (Grows(log) ==> loss >= 0.0)
  {
    hide IsPLogP, Members, Logs, Surprise, Grows, Code.PLogP, Costs;
    var total := Members(flows, index, m);
    MembersAtLeast(flows, index, m);
    if total > 0.0 {
      CostsOfMembers(code.code, log, flows, index, m, total);
      PLogPOf(code.code, log, total);
      CostsMean(Members(NamingCosts(log, flows, total), index, m), total, log(total),
                Members(Logs(code.code, flows), index, m));
      LossOf(code, total, log(total), Members(NamingCosts(log, flows, total), index, m),
             Members(Logs(code.code, flows), index, m));
      if Grows(log) { CostsNotNegative(code.code, log, flows, index, m, total); }
    } else {
      PLogPOf(code.code, log, 1.0);
      MembersZero(Logs(code.code, flows), index, m) by {
        forall i | 0 <= i < |flows| && index[i] == m ensures Logs(code.code, flows)[i] == 0.0 {
          assert flows[i] == 0.0;
        }
      }
    }
  }

  lemma {:induction false} LossOf(code: LossyCode, total: real, l: real, costs: real, logs: real)
    requires costs == total * l - logs && code.code.PLogP(total) == total * l
    ensures code.CalcLoss(total, logs) == costs
  {
  }

  lemma {:induction false} CostsNotNegative(code: Code, log: real -> real, flows: seq<real>, index: seq<nat>, m: nat,
                                            total: real)
    requires IsPLogP(code, log) && Grows(log) && |flows| == |index| && total == Members(flows, index, m) > 0.0
    requires forall i :: 0 <= i < |flows| ==> flows[i] >= 0.0
    ensures Members(NamingCosts(log, flows, total), index, m) >= 0.0
  {
    hide IsPLogP, Grows, Surprise, Code.PLogP, Members;
    MembersAtLeast(flows, index, m);
    var costs := NamingCosts(log, flows, total);
    var own := seq(|costs|, i requires 0 <= i < |costs| => if index[i] == m then costs[i] else 0.0);
    forall i | 0 <= i < |own| ensures own[i] >= 0.0 {
      if index[i] == m {
        Share(flows[i], total);
        SurpriseAtLeastZero(code, log, flows[i] / total);
        Product(total, Surprise(log, flows[i] / total));
      }
    }
    MembersAgree(own, costs, index, m);
    MembersAtLeast(own, index, m);
  }

  lemma {:induction false} Share(x: real, total: real)
    requires 0.0 <= x <= total && total > 0.0
    ensures x / total <= 1.0
  {
  }

  lemma {:induction false} Product(x: real, y: real)
    requires x >= 0.0 && y >= 0.0
    ensures x * y >= 0.0
  {
  }

  /** The visit words of all nodes are those of the modules, one shared word for every noise module. */
  lemma {:induction false} WordsOfModules(code: LossyCode, nodes: seq<LossyData>, index: seq<nat>,
                                          modules: seq<FlowData>, noise: seq<bool>)
    requires |nodes| == |index| == |modules| == |noise| && forall i :: 0 <= i < |index| ==> index[i] < |index|
    ensures var lossy := AllLossyData(nodes, index);
            VisitWords(code.code, Sum(FlowLogs(nodes)), modules, lossy, noise)
            == Sum(seq(|modules|, m requires 0 <= m < |modules| =>
                         if noise[m] then code.code.PLogP(modules[m].flow) else lossy[m].flowLogFlow))
  {
    var lossy := AllLossyData(nodes, index);
    var logs := MembersAll(FlowLogs(nodes), index, |index|);
    MembersTotal(FlowLogs(nodes), index, |index|);
    assert logs == FlowLogs(lossy);
    WordByWord(code.code, modules, lossy, noise);
  }

  lemma {:induction false} WordByWord(code: Code, modules: seq<FlowData>, lossy: seq<LossyData>, noise: seq<bool>)
    requires |modules| == |lossy| == |noise|
    ensures VisitWords(code, Sum(FlowLogs(lossy)), modules, lossy, noise)
            == Sum(seq(|modules|, m requires 0 <= m < |modules| =>
                         if noise[m] then code.PLogP(modules[m].flow) else lossy[m].flowLogFlow))
  {
    hide Code.PLogP;
    var words := seq(|modules|, m requires 0 <= m < |modules| =>
                       if noise[m] then code.PLogP(modules[m].flow) else lossy[m].flowLogFlow);
    if modules != [] {
      var n := |modules| - 1;
      WordByWord(code, modules[..n], lossy[..n], noise[..n]);
      assert FlowLogs(lossy)[..n] == FlowLogs(lossy[..n]);
      assert words[..n] == seq(n, m requires 0 <= m < n =>
                                 if noise[..n][m] then code.PLogP(modules[..n][m].flow)
                                 else lossy[..n][m].flowLogFlow);
      WordsShift(code, Sum(FlowLogs(lossy[..n])), lossy[n].flowLogFlow, modules[..n], lossy[..n], noise[..n]);
    }
  }

  lemma {:induction false} WordsShift(code: Code, x: real, y: real, modules: seq<FlowData>, lossy: seq<LossyData>,
                                      noise: seq<bool>)
    requires |modules| == |lossy| == |noise|
    ensures VisitWords(code, x + y, modules, lossy, noise) == VisitWords(code, x, modules, lossy, noise) + y
  {
    hide Code.PLogP;
    if modules != [] {
      var n := |modules| - 1;
      WordsShift(code, x, y, modules[..n], lossy[..n], noise[..n]);
    }
  }

  // ----- The numbers of a leaf -----

  /** Weight of the links between nodes a and b, in either direction; the flow of an edge is its weight here. */
  function WeightBetween(links: seq<Edge>, a: nat, b: nat): real
  {
    if links == [] then 0.0
    else
      var e := links[|links| - 1];
      WeightBetween(links[..|links| - 1], a, b)
      + (if e.source == a && e.target == b then e.flow else 0.0)
      + (if e.target == a && e.source == b then e.flow else 0.0)
  }

  function WeightsOf(links: seq<Edge>, a: nat, n: nat): (r: seq<real>)
    ensures |r| == n && forall b :: 0 <= b < n ==> r[b] == WeightBetween(links, a, b)
  {
    seq(n, (b: nat) => WeightBetween(links, a, b))
  }

  /** Entropy of one step of the walk from a node, given its weights to all nodes. */
  function StepEntropy(code: Code, weights: seq<real>): real
  {
    var strength := Sum(weights);
    if strength > NEGLIGIBLE then (code.PLogP(strength) - Sum(Logs(code, weights))) / strength else 0.0
  }

  function LeafData(code: Code, links: seq<Edge>, flow: real, a: nat, n: nat): LossyData
  {
    LossyData(flow * StepEntropy(code, WeightsOf(links, a, n)), code.PLogP(flow))
  }

  /** The table holds the weight to every neighbour among the first links, and nobody else. */
  ghost predicate WeightsIn(table: map<nat, real>, out: seq<Edge>, into: seq<Edge>, a: nat)
  {
    forall b: nat :: (if b in table then table[b] else 0.0) == WeightOut(out, a, b) + WeightOut(Reversed(into), a, b)
  }

  /** Weight of the links from a to b. */
  function WeightOut(links: seq<Edge>, a: nat, b: nat): real
  {
    if links == [] then 0.0
    else
      var e := links[|links| - 1];
      WeightOut(links[..|links| - 1], a, b) + (if e.source == a && e.target == b then e.flow else 0.0)
  }

  function Reversed(links: seq<Edge>): (r: seq<Edge>)
    ensures |r| == |links|
    ensures forall k :: 0 <= k < |r| ==> r[k] == Edge(links[k].target, links[k].source, links[k].flow)
  {
    seq(|links|, k requires 0 <= k < |links| => Edge(links[k].target, links[k].source, links[k].flow))
  }

  lemma {:induction false} BothDirections(links: seq<Edge>, a: nat, b: nat)
    ensures WeightBetween(links, a, b) == WeightOut(links, a, b) + WeightOut(Reversed(links), a, b)
  {
    if links != [] {
      var n := |links| - 1;
      BothDirections(links[..n], a, b);
      assert Reversed(links)[..n] == Reversed(links[..n]);
    }
  }

  lemma {:induction false} WeightAdded(links: seq<Edge>, k: nat, a: nat, b: nat)
    requires k < |links|
    ensures WeightOut(links[..k + 1], a, b)
         == WeightOut(links[..k], a, b)
            + (if links[k].source == a && links[k].target == b then links[k].flow else 0.0)
    ensures WeightOut(Reversed(links[..k + 1]), a, b)
         == WeightOut(Reversed(links[..k]), a, b)
            + (if links[k].target == a && links[k].source == b then links[k].flow else 0.0)
  {
    assert links[..k + 1][..k] == links[..k];
    assert Reversed(links[..k + 1])[..k] == Reversed(links[..k]);
  }

  /** Weights of the distinct neighbours of a node, over its outlinks and then its inlinks. */
  method NeighbourWeights(links: seq<Edge>, a: nat) returns (table: map<nat, real>)
    ensures forall b: nat :: (if b in table then table[b] else 0.0) == WeightBetween(links, a, b)
    ensures forall b :: b in table ==>
              exists k :: 0 <= k < |links| && (b == links[k].source || b == links[k].target)
  {
    hide WeightOut, WeightBetween;
    table := map[];
    forall b: nat ensures WeightOut(links[..0], a, b) == WeightOut(Reversed(links[..0]), a, b) == 0.0 {
      NoLinks(links, a, b);
    }
    for k := 0 to |links|
      invariant WeightsIn(table, links[..k], links[..0], a)
      invariant forall b :: b in table ==>
                  exists i :: 0 <= i < k && (b == links[i].source || b == links[i].target)
    {
      var e := links[k];
      forall b: nat
        ensures WeightOut(links[..k + 1], a, b)
             == WeightOut(links[..k], a, b) + (if e.source == a && e.target == b then e.flow else 0.0)
      {
        WeightAdded(links, k, a, b);
      }
      if e.source == a {
        table := table[e.target := (if e.target in table then table[e.target] else 0.0) + e.flow];
      }
    }
    assert links[..|links|] == links;
    for k := 0 to |links|
      invariant WeightsIn(table, links, links[..k], a)
      invariant forall b :: b in table ==>
                  exists i :: 0 <= i < |links| && (b == links[i].source || b == links[i].target)
    {
      var e := links[k];
      forall b: nat
        ensures WeightOut(Reversed(links[..k + 1]), a, b)
             == WeightOut(Reversed(links[..k]), a, b) + (if e.target == a && e.source == b then e.flow else 0.0)
      {
        WeightAdded(links, k, a, b);
      }
      if e.target == a {
        table := table[e.source := (if e.source in table then table[e.source] else 0.0) + e.flow];
      }
    }
    forall b: nat ensures (if b in table then table[b] else 0.0) == WeightBetween(links, a, b) {
      BothDirections(links, a, b);
    }
  }

  lemma {:induction false} NoLinks(links: seq<Edge>, a: nat, b: nat)
    ensures WeightOut(links[..0], a, b) == WeightOut(Reversed(links[..0]), a, b) == 0.0
  {
  }

  /** The part of the values that the table has gone through. */
  ghost function Done(values: seq<real>, todo: set<nat>): (r: seq<real>)
    ensures |r| == |values|
    ensures forall b :: 0 <= b < |r| ==> r[b] == if b in todo then 0.0 else values[b]
  {
    seq(|values|, b requires 0 <= b < |values| => if b in todo then 0.0 else values[b])
  }

  lemma {:induction false} DoneMore(values: seq<real>, todo: set<nat>, b: nat)
    requires b in todo && b < |values|
    ensures Sum(Done(values, todo - {b})) == Sum(Done(values, todo)) + values[b]
  {
    SumOne(Done(values, todo), Done(values, todo - {b}), b);
  }

  /** Entropy and flow log of every leaf, and their totals; weights are summed per neighbour first. */
  method InitNetwork(code: Code, links: seq<Edge>, flows: seq<real>) returns (nodes: seq<LossyData>, root: LossyData)
    requires code.PLogP(0.0) == 0.0
    requires forall k :: 0 <= k < |links| ==> links[k].source < |flows| && links[k].target < |flows|
    ensures |nodes| == |flows|
    ensures forall a :: 0 <= a < |nodes| ==> nodes[a] == LeafData(code, links, flows[a], a, |flows|)
    ensures root == LossyData(Sum(Entropies(nodes)), Sum(FlowLogs(nodes)))
  {
    hide WeightBetween, Sum, Code.PLogP;
    nodes, root := [], LossyData(0.0, 0.0);
    NoSum();
    for a := 0 to |flows|
      invariant |nodes| == a
      invariant forall i :: 0 <= i < a ==> nodes[i] == LeafData(code, links, flows[i], i, |flows|)
      invariant root == LossyData(Sum(Entropies(nodes)), Sum(FlowLogs(nodes)))
    {
      var h := EntropyOfStep(code, links, a, |flows|);
      var d := LossyData(flows[a] * h, code.PLogP(flows[a]));
      TotalsNext(nodes, d);
      root := LossyData(root.entropy + d.entropy, root.flowLogFlow + d.flowLogFlow);
      nodes := nodes + [d];
    }
  }

  lemma {:induction false} NoSum()
    ensures Sum([]) == 0.0
  {
  }

  lemma {:induction false} TotalsNext(nodes: seq<LossyData>, d: LossyData)
    ensures Sum(Entropies(nodes + [d])) == Sum(Entropies(nodes)) + d.entropy
    ensures Sum(FlowLogs(nodes + [d])) == Sum(FlowLogs(nodes)) + d.flowLogFlow
  {
    assert Entropies(nodes + [d]) == Entropies(nodes) + [d.entropy];
    assert FlowLogs(nodes + [d]) == FlowLogs(nodes) + [d.flowLogFlow];
    SumAppend(Entropies(nodes), d.entropy);
    SumAppend(FlowLogs(nodes), d.flowLogFlow);
  }

  /** One leaf: its neighbours in any order. */
  method EntropyOfStep(code: Code, links: seq<Edge>, a: nat, n: nat) returns (h: real)
    requires code.PLogP(0.0) == 0.0
    requires forall k :: 0 <= k < |links| ==> links[k].source < n && links[k].target < n
    ensures h == StepEntropy(code, WeightsOf(links, a, n))
  {
    hide WeightBetween, Sum, Code.PLogP;
    var neighbourWeight := NeighbourWeights(links, a);
    var sumWLogW, strength := 0.0, 0.0;
    ghost var weights, logs := WeightsOf(links, a, n), Logs(code, WeightsOf(links, a, n));
    var todo := neighbourWeight.Keys;
    SumZero(Done(weights, todo));
    SumZero(Done(logs, todo));
    while todo != {}
      invariant todo <= neighbourWeight.Keys
      invariant strength == Sum(Done(weights, todo)) && sumWLogW == Sum(Done(logs, todo))
      decreases todo
    {
      var b :| b in todo;
      DoneMore(weights, todo, b);
      DoneMore(logs, todo, b);
      todo := todo - {b};
      sumWLogW := sumWLogW + code.PLogP(neighbourWeight[b]);
      strength := strength + neighbourWeight[b];
    }
    assert Done(weights, {}) == weights && Done(logs, {}) == logs;
    h := if strength > NEGLIGIBLE then (code.PLogP(strength) - sumWLogW) / strength else 0.0;
  }

  // ----- What the entropy of a leaf means -----

  /** Surprise of every neighbour as the next node of the walk. */
  ghost function StepSurprises(log: real -> real, weights: seq<real>, strength: real): (r: seq<real>)
    requires strength > 0.0
    ensures |r| == |weights| && forall b :: 0 <= b < |r| ==> r[b] == Surprise(log, weights[b] / strength)
  {
    seq(|weights|, b requires 0 <= b < |weights| => Surprise(log, weights[b] / strength))
  }

  /** The entropy of a node with links is the expected surprise of a step, each neighbour in proportion to its weight,
      and it is not negative. */
  lemma {:induction false} EntropyIsSurprise(code: Code, log: real -> real, weights: seq<real>)
    requires IsPLogP(code, log) && forall b :: 0 <= b < |weights| ==> weights[b] >= 0.0
    ensures Sum(weights) > NEGLIGIBLE ==>
              StepEntropy(code, weights) == Sum(StepSurprises(log, weights, Sum(weights)))
    ensures Grows(log) ==> StepEntropy(code, weights) >= 0.0
  {
    hide IsPLogP, Code.PLogP, Surprise, Sum, Grows;
    var strength := Sum(weights);
    if strength > NEGLIGIBLE {
      var surprises, logs := Sum(StepSurprises(log, weights, strength)), Sum(Logs(code, weights));
      SurprisesSum(code, log, weights, strength);
      PLogPOf(code, log, strength);
      Divided(strength, surprises, code.PLogP(strength) - logs);
      if Grows(log) { SurprisesNotNegative(code, log, weights); }
    }
  }

  lemma {:induction false} Divided(s: real, x: real, y: real)
    requires s > 0.0 && Scaled(s, x) == y
    ensures y / s == x
  {
  }

  lemma {:induction false} SurprisesSum(code: Code, log: real -> real, weights: seq<real>, strength: real)
    requires IsPLogP(code, log) && strength > 0.0 && forall b :: 0 <= b < |weights| ==> weights[b] >= 0.0
    ensures Costs(Scaled(strength, Sum(StepSurprises(log, weights, strength))), Sum(weights), log(strength),
                  Sum(Logs(code, weights)))
  {
    hide IsPLogP, Surprise, Code.PLogP, Costs, Scaled;
    var l := log(strength);
    NoCosts(l);
    ScaledSum(strength, 0.0, 0.0);
    if weights != [] {
      var n := |weights| - 1;
      var surprises, logs := StepSurprises(log, weights, strength), Logs(code, weights);
      SurprisesSum(code, log, weights[..n], strength);
      SurprisePrefix(code, log, weights, strength, n);
      ScaledCost(code, log, weights[n], strength);
      ScaledSum(strength, Sum(surprises[..n]), surprises[n]);
      CostsAdd(Scaled(strength, Sum(surprises[..n])), Sum(weights[..n]), l, Sum(logs[..n]),
               Scaled(strength, surprises[n]), weights[n], logs[n]);
    }
  }

  lemma {:induction false} ScaledCost(code: Code, log: real -> real, x: real, total: real)
    requires IsPLogP(code, log) && total > 0.0 && x >= 0.0
    ensures Costs(Scaled(total, Surprise(log, x / total)), x, log(total), code.PLogP(x))
  {
    CostOfOne(code, log, x, total);
  }

  lemma {:induction false} SurprisePrefix(code: Code, log: real -> real, weights: seq<real>, strength: real, n: nat)
    requires strength > 0.0 && n <= |weights|
    ensures StepSurprises(log, weights, strength)[..n] == StepSurprises(log, weights[..n], strength)
    ensures Logs(code, weights)[..n] == Logs(code, weights[..n])
  {
    hide Surprise, Code.PLogP;
    var all, before := StepSurprises(log, weights, strength), StepSurprises(log, weights[..n], strength);
    forall i | 0 <= i < n ensures all[..n][i] == before[i] {
      assert weights[..n][i] == weights[i];
    }
    assert all[..n] == before;
  }

  lemma {:induction false} SurprisesNotNegative(code: Code, log: real -> real, weights: seq<real>)
    requires IsPLogP(code, log) && Grows(log) && Sum(weights) > 0.0
    requires forall b :: 0 <= b < |weights| ==> weights[b] >= 0.0
    ensures Sum(StepSurprises(log, weights, Sum(weights))) >= 0.0
  {
    hide IsPLogP, Grows, Surprise, Code.PLogP, Sum;
    var surprises := StepSurprises(log, weights, Sum(weights));
    TermsAtMostSum(weights);
    forall b | 0 <= b < |surprises| ensures surprises[b] >= 0.0 {
      Share(weights[b], Sum(weights));
      SurpriseAtLeastZero(code, log, weights[b] / Sum(weights));
    }
    TermsAtMostSum(surprises);
  }

  lemma {:induction false} TermsAtMostSum(xs: seq<real>)
    requires forall i :: 0 <= i < |xs| ==> xs[i] >= 0.0
    ensures Sum(xs) >= 0.0 && forall i :: 0 <= i < |xs| ==> xs[i] <= Sum(xs)
  {
    if xs != [] {
      var n := |xs| - 1;
      TermsAtMostSum(xs[..n]);
      forall i | 0 <= i < |xs| ensures xs[i] <= Sum(xs) {
        if i < n { assert xs[..n][i] == xs[i]; }
      }
    }
  }

  /** However the same undirected links are written, split up or in either direction, a leaf has the same numbers. */
  lemma {:induction false} WritingDoesNotMatter(code: Code, links: seq<Edge>, other: seq<Edge>, flow: real, a: nat,
                                                n: nat)
    requires forall b: nat :: b < n ==> WeightBetween(links, a, b) == WeightBetween(other, a, b)
    ensures LeafData(code, links, flow, a, n) == LeafData(code, other, flow, a, n)
  {
    hide StepEntropy, Code.PLogP, WeightBetween;
    assert WeightsOf(links, a, n) == WeightsOf(other, a, n);
  }

  /** The other way round, any of the links. */
  lemma {:induction false} DirectionDoesNotMatter(links: seq<Edge>, other: seq<Edge>, a: nat, b: nat)
    requires |links| == |other|
    requires forall k :: 0 <= k < |links| ==>
               other[k] == links[k] || other[k] == Edge(links[k].target, links[k].source, links[k].flow)
    ensures WeightBetween(links, a, b) == WeightBetween(other, a, b)
  {
    if links != [] {
      var n := |links| - 1;
      DirectionDoesNotMatter(links[..n], other[..n], a, b);
    }
  }

  /** One link in two parts, anywhere in the list. */
  lemma {:induction false} SplittingDoesNotMatter(before: seq<Edge>, e: Edge, part: real, after: seq<Edge>, a: nat,
                                                  b: nat)
    ensures WeightBetween(before + [e] + after, a, b)
         == WeightBetween(before + [e.(flow := part), e.(flow := e.flow - part)] + after, a, b)
  {
    var split := [e.(flow := part), e.(flow := e.flow - part)];
    if after == [] {
      assert before + [e] + after == before + [e] && (before + [e])[..|before|] == before;
      assert before + split + after == (before + split[..1]) + split[1..];
      assert ((before + split[..1]) + split[1..])[..|before| + 1] == before + split[..1];
      assert (before + split[..1])[..|before|] == before;
    } else {
      var n := |after| - 1;
      SplittingDoesNotMatter(before, e, part, after[..n], a, b);
      assert (before + [e] + after)[..|before| + 1 + n] == before + [e] + after[..n];
      assert (before + split + after)[..|before| + 2 + n] == before + split + after[..n];
    }
  }
}
