/** Consolidation of a memory network: every module becomes a node that carries what its members
    carry, read off the index. */
module MemoryConsolidation {
  import opened Sums
  import opened FlowNetwork
  import opened MapEquations
  import opened Logarithms
  import opened Partitions
  import opened Consolidation
  import opened MemoryIndex

  /** A list in the order of the physical nodes, all below p. */
  ghost predicate SortedBelow(carried: seq<PhysData>, p: nat)
  {
    && (forall k :: 0 <= k < |carried| ==> carried[k].physNodeIndex < p)
    && (forall k, l :: 0 <= k < l < |carried| ==> carried[k].physNodeIndex < carried[l].physNodeIndex)
  }

  /** The list carries physical node p exactly if the module has a carrier of it, with the flow of all. */
  ghost predicate CarriesFor(carried: seq<PhysData>, phys: seq<seq<PhysData>>, index: seq<nat>, m: nat, p: nat)
    requires |phys| == |index| && m < |index|
  {
    && (Carries(carried, p) <==> MemCounts(phys, index, p)[m] > 0)
    && FlowOn(carried, p) == MemFlows(phys, index, p)[m]
  }

  /** The new nodes have collected the first n physical nodes. */
  ghost predicate CollectedUpTo(collected: seq<seq<PhysData>>, phys: seq<seq<PhysData>>, index: seq<nat>,
                                ids: seq<nat>, n: nat)
    requires |phys| == |index|
  {
    && |collected| == |ids|
    && (forall s :: 0 <= s < |ids| ==> ids[s] < |index| && SortedBelow(collected[s], n))
    && (forall s, p :: 0 <= s < |ids| && 0 <= p < n ==> CarriesFor(collected[s], phys, index, ids[s], p))
  }

  /** In the middle of row n: the modules before entry j have got their part. */
  ghost predicate CollectedInRow(collected: seq<seq<PhysData>>, before: seq<seq<PhysData>>, ids: seq<nat>, n: nat,
                                 row: seq<ModuleMemNodes>, j: nat, flows: seq<real>)
  {
    && j <= |row| && |collected| == |before| == |ids|
    && forall s :: 0 <= s < |ids| ==>
         ids[s] < |flows|
         && collected[s] == before[s] + (if HasModule(row[..j], ids[s]) then [PhysData(n, flows[ids[s]])] else [])
  }

  lemma {:induction false} FlowOnAppend(carried: seq<PhysData>, e: PhysData, p: nat)
    ensures FlowOn(carried + [e], p) == FlowOn(carried, p) + (if e.physNodeIndex == p then e.sumFlow else 0.0)
    ensures Carries(carried + [e], p) <==> Carries(carried, p) || e.physNodeIndex == p
  {
    var more := carried + [e];
    assert more[..|carried|] == carried && more[|carried|] == e;
    if Carries(carried, p) {
      var k :| 0 <= k < |carried| && carried[k].physNodeIndex == p;
      assert more[k].physNodeIndex == p;
    }
  }

  lemma {:induction false} CollectedRowStart(collected: seq<seq<PhysData>>, phys: seq<seq<PhysData>>, index: seq<nat>,
                                             ids: seq<nat>, n: nat, row: seq<ModuleMemNodes>)
    requires |phys| == |index| && CollectedUpTo(collected, phys, index, ids, n)
    ensures CollectedInRow(collected, collected, ids, n, row, 0, MemFlows(phys, index, n))
  {
    hide MemFlows, CarriesFor, SortedBelow;
    assert row[..0] == [];
  }

  /** Each entry goes to the node of its module, which exists. */
  lemma {:induction false} CollectedRowStep(collected: seq<seq<PhysData>>, before: seq<seq<PhysData>>, ids: seq<nat>,
                                            n: nat,
                                            row: seq<ModuleMemNodes>, j: nat, counts: seq<nat>, flows: seq<real>,
                                                s: nat)
    requires RowIs(row, counts, flows) && j < |row| && s < |ids| && ids[s] == row[j].moduleId
    requires CollectedInRow(collected, before, ids, n, row, j, flows) && Distinct(ids)
    ensures CollectedInRow(collected[s := collected[s] + [PhysData(n, row[j].sumFlow)]], before, ids, n, row, j + 1,
              flows)
  {
    assert EntryIs(row[j], counts, flows);
    HasModuleMore(row, j);
    hide RowIs, HasModule;
    forall t | 0 <= t < |ids| && t != s ensures ids[t] != ids[s] {
      assert if t < s then ids[t] != ids[s] else ids[s] != ids[t];
    }
  }

  lemma {:induction false} CollectedRowEnd(collected: seq<seq<PhysData>>, before: seq<seq<PhysData>>,
                                           phys: seq<seq<PhysData>>,
                                           index: seq<nat>, ids: seq<nat>, n: nat, row: seq<ModuleMemNodes>)
    requires |phys| == |index| && CollectedUpTo(before, phys, index, ids, n)
    requires RowIs(row, MemCounts(phys, index, n), MemFlows(phys, index, n))
    requires CollectedInRow(collected, before, ids, n, row, |row|, MemFlows(phys, index, n))
    ensures CollectedUpTo(collected, phys, index, ids, n + 1)
  {
    hide MemFlows, MemCounts;
    var counts, flows := MemCounts(phys, index, n), MemFlows(phys, index, n);
    assert row[..|row|] == row;
    forall s | 0 <= s < |ids| ensures SortedBelow(collected[s], n + 1)
        && CarriesFor(collected[s], phys, index, ids[s], n) {
      assert before[s] + [] == before[s];
      HasModuleCounts(row, counts, flows, ids[s]);
      NotYetCarried(before[s], n);
      FlowOnAppend(before[s], PhysData(n, flows[ids[s]]), n);
      if counts[ids[s]] == 0 { NoCarriersNoFlow(phys, index, n, ids[s]); }
    }
    forall s, p | 0 <= s < |ids| && 0 <= p < n ensures CarriesFor(collected[s], phys, index, ids[s], p) {
      assert before[s] + [] == before[s];
      assert CarriesFor(before[s], phys, index, ids[s], p);
      FlowOnAppend(before[s], PhysData(n, flows[ids[s]]), p);
    }
  }

  lemma {:induction false} HasModuleCounts(row: seq<ModuleMemNodes>, counts: seq<nat>, flows: seq<real>, m: nat)
    requires RowIs(row, counts, flows) && m < |counts|
    ensures HasModule(row, m) <==> counts[m] > 0
  {
    if HasModule(row, m) {
      var k :| 0 <= k < |row| && row[k].moduleId == m;
      assert EntryIs(row[k], counts, flows);
    }
  }

  lemma {:induction false} NotYetCarried(carried: seq<PhysData>, n: nat)
    requires SortedBelow(carried, n)
    ensures !Carries(carried, n) && FlowOn(carried, n) == 0.0
  {
    FlowOnAbsent(carried, n);
  }

  /** Hand every entry of the index to the new node of its module. The node of an entry is never
      missing, and no node gets the same physical node twice. */
  method ConsolidatePhysicalNodes(rows: seq<seq<ModuleMemNodes>>, modules: seq<Option<nat>>, numNew: nat,
                                  ghost phys: seq<seq<PhysData>>, ghost index: seq<nat>, ghost ids: seq<nat>,
                                      ghost position: seq<nat>)
    returns (collected: seq<seq<PhysData>>)
    requires |phys| == |index| && IndexIs(rows, phys, index) && Numbering(index, ids, position) && numNew == |ids|
    requires |modules| == |index|
    requires forall m :: 0 <= m < |modules| ==> (m in index <==> modules[m].Some?)
    requires forall m :: 0 <= m < |modules| && modules[m].Some? ==> modules[m].value == position[m]
    ensures CollectedUpTo(collected, phys, index, ids, |rows|)
    ensures MemoryOk(collected, |rows|)
  {
    hide RowIs, MemCounts, MemFlows, CollectedUpTo, CollectedInRow;
    DistinctIds(index, ids, position);
    collected := seq(numNew, (s: nat) => []);
    CollectedNone(collected, phys, index, ids, position);
    for i := 0 to |rows|
      invariant CollectedUpTo(collected, phys, index, ids, i)
    {
      var row := rows[i];
      ghost var before, counts, flows := collected, MemCounts(phys, index, i), MemFlows(phys, index, i);
      CollectedRowStart(collected, phys, index, ids, i, row);
      for j := 0 to |row|
        invariant CollectedInRow(collected, before, ids, i, row, j, flows)
      {
        EntryModule(row, phys, index, i, j);
        var s := modules[row[j].moduleId].value;
        SameSize(collected, before, ids, i, row, j, flows);
        CollectedRowStep(collected, before, ids, i, row, j, counts, flows, s);
        collected := collected[s := collected[s] + [PhysData(i, row[j].sumFlow)]];
      }
      CollectedRowEnd(collected, before, phys, index, ids, i, row);
    }
    CollectedOk(collected, phys, index, ids, |rows|);
  }

  lemma {:induction false} DistinctIds(index: seq<nat>, ids: seq<nat>, position: seq<nat>)
    requires Numbering(index, ids, position)
    ensures Distinct(ids) && forall m :: m in index ==> m < |index| && position[m] < |ids| && ids[position[m]] == m
  {
    forall i, j | 0 <= i < j < |ids| ensures ids[i] != ids[j] {
      assert position[ids[i]] == i && position[ids[j]] == j;
    }
  }

  lemma {:induction false} CollectedNone(collected: seq<seq<PhysData>>, phys: seq<seq<PhysData>>, index: seq<nat>,
                                         ids: seq<nat>, position: seq<nat>)
    requires |phys| == |index| && Numbering(index, ids, position)
    requires |collected| == |ids| && forall s :: 0 <= s < |ids| ==> collected[s] == []
    ensures CollectedUpTo(collected, phys, index, ids, 0)
  {
  }

  /** An entry of the index belongs to a module with members. */
  lemma {:induction false} EntryModule(row: seq<ModuleMemNodes>, phys: seq<seq<PhysData>>, index: seq<nat>, p: nat,
                                       j: nat)
    requires |phys| == |index| && RowIs(row, MemCounts(phys, index, p), MemFlows(phys, index, p)) && j < |row|
    ensures row[j].moduleId < |index| && row[j].moduleId in index
    ensures j > 0 ==> row[j - 1].moduleId < row[j].moduleId
  {
    assert EntryIs(row[j], MemCounts(phys, index, p), MemFlows(phys, index, p));
    var m := row[j].moduleId;
    CountZero(Carriers(phys, index, p), m);
    var i :| 0 <= i < |index| && Carriers(phys, index, p)[i] == m;
    assert index[i] == m;
  }

  lemma {:induction false} SameSize(collected: seq<seq<PhysData>>, before: seq<seq<PhysData>>, ids: seq<nat>, n: nat,
                                    row: seq<ModuleMemNodes>, j: nat, flows: seq<real>)
    requires CollectedInRow(collected, before, ids, n, row, j, flows)
    ensures |collected| == |ids|
  {
  }

  lemma {:induction false} CollectedOk(collected: seq<seq<PhysData>>, phys: seq<seq<PhysData>>, index: seq<nat>,
                                       ids: seq<nat>, n: nat)
    requires |phys| == |index| && CollectedUpTo(collected, phys, index, ids, n)
    ensures MemoryOk(collected, n)
  {
    forall s | 0 <= s < |collected| ensures PhysicalNodesOk(collected[s], n) {
      assert SortedBelow(collected[s], n);
    }
  }

  // ----- The consolidated memory network stands for the one below -----

  /** Every grouping of the new nodes has the flow of every physical node that the same grouping of
      the old ones has. */
  lemma {:induction false} GroupedFlows(collected: seq<seq<PhysData>>, phys: seq<seq<PhysData>>, index: seq<nat>,
                                        ids: seq<nat>, position: seq<nat>, n: nat, g: seq<nat>, p: nat, s: nat)
    requires |phys| == |index| && Numbering(index, ids, position) && CollectedUpTo(collected, phys, index, ids, n)
    requires |g| == |ids| && p < n
    ensures Members(PhysFlows(collected, p), g, s)
              == Members(PhysFlows(phys, p), Compose(Compose(index, position), g), s)
  {
    var q := Compose(index, position);
    forall j | 0 <= j < |ids| ensures PhysFlows(collected, p)[j] == MembersAll(PhysFlows(phys, p), q, |ids|)[j] {
      assert CarriesFor(collected[j], phys, index, ids[j], p);
      forall i | 0 <= i < |index| ensures index[i] == ids[j] <==> q[i] == j {
        assert ids[position[index[i]]] == index[i];
      }
      MembersRelabel(PhysFlows(phys, p), index, ids[j], q, j);
    }
    assert PhysFlows(collected, p) == MembersAll(PhysFlows(phys, p), q, |ids|);
    MembersCompose(PhysFlows(phys, p), q, g, s);
  }

  lemma {:induction false} GroupedPhysLog(code: Code, collected: seq<seq<PhysData>>, phys: seq<seq<PhysData>>,
                                          index: seq<nat>,
                                          ids: seq<nat>, position: seq<nat>, n: nat, g: seq<nat>, p: nat)
    requires |phys| == |index| && Numbering(index, ids, position) && CollectedUpTo(collected, phys, index, ids, n)
    requires |g| == |ids| <= |index| && p < n && code.PLogP(0.0) == 0.0
    requires forall j :: 0 <= j < |g| ==> g[j] < |g|
    ensures |collected| == |g|
    ensures PhysLog(code, collected, g, p) == PhysLog(code, phys, Compose(Compose(index, position), g), p)
  {
    hide CollectedUpTo;
    SameNumber(collected, phys, index, ids, n);
    var h := Compose(Compose(index, position), g);
    var few, many := MemFlows(collected, g, p), MemFlows(phys, h, p);
    forall s: nat | s < |few| ensures few[s] == many[s] {
      GroupedFlows(collected, phys, index, ids, position, n, g, p, s);
    }
    forall s | |few| <= s < |many| ensures many[s] == 0.0 {
      MembersZero(PhysFlows(phys, p), h, s);
    }
    var picked := Identity(|few|);
    forall s | 0 <= s < |few| ensures s in picked {
      assert picked[s] == s;
    }
    SumSelect(Logs(code, many), picked, Logs(code, few));
  }

  lemma {:induction false} SameNumber(collected: seq<seq<PhysData>>, phys: seq<seq<PhysData>>, index: seq<nat>,
                                      ids: seq<nat>, n: nat)
    requires |phys| == |index| && CollectedUpTo(collected, phys, index, ids, n)
    ensures |collected| == |ids|
  {
  }

  /** So the codewords of every grouping are the same. */
  lemma {:induction false} GroupedNodeFlowLog(code: Code, collected: seq<seq<PhysData>>, phys: seq<seq<PhysData>>,
                                              index: seq<nat>,
                                              ids: seq<nat>, position: seq<nat>, n: nat, g: seq<nat>)
    requires |phys| == |index| && Numbering(index, ids, position) && CollectedUpTo(collected, phys, index, ids, n)
    requires |g| == |ids| <= |index| && code.PLogP(0.0) == 0.0
    requires forall j :: 0 <= j < |g| ==> g[j] < |g|
    ensures |collected| == |g|
    ensures NodeFlowLog(code, collected, g, n) == NodeFlowLog(code, phys, Compose(Compose(index, position), g), n)
  {
    hide CollectedUpTo, PhysLog;
    SameNumber(collected, phys, index, ids, n);
    var h := Compose(Compose(index, position), g);
    forall p | 0 <= p < n ensures PhysLogs(code, collected, g, n)[p] == PhysLogs(code, phys, h, n)[p] {
      GroupedPhysLog(code, collected, phys, index, ids, position, n, g, p);
    }
    assert PhysLogs(code, collected, g, n) == PhysLogs(code, phys, h, n);
  }

  /** The codewords of the new nodes, each a module of its own, are those of the partition that was
      consolidated. */
  lemma {:induction false} ConsolidatedPhysLog(code: Code, collected: seq<seq<PhysData>>, phys: seq<seq<PhysData>>,
                                               index: seq<nat>,
                                               ids: seq<nat>, position: seq<nat>, n: nat, p: nat)
    requires |phys| == |index| && Numbering(index, ids, position) && CollectedUpTo(collected, phys, index, ids, n)
    requires p < n && code.PLogP(0.0) == 0.0
    ensures |collected| == |ids|
    ensures PhysLog(code, collected, Identity(|ids|), p) == PhysLog(code, phys, index, p)
  {
    DistinctIds(index, ids, position);
    var few, many := MemFlows(collected, Identity(|ids|), p), MemFlows(phys, index, p);
    forall s | 0 <= s < |ids| ensures few[s] == many[ids[s]] {
      MembersSingle(PhysFlows(collected, p), Identity(|ids|), s);
      assert CarriesFor(collected[s], phys, index, ids[s], p);
    }
    forall m | 0 <= m < |many| && m !in ids ensures many[m] == 0.0 {
      assert m !in index;
      MembersZero(PhysFlows(phys, p), index, m);
    }
    SumSelect(Logs(code, many), ids, Logs(code, few));
  }

  lemma {:induction false} ConsolidatedNodeFlowLog(code: Code, collected: seq<seq<PhysData>>, phys: seq<seq<PhysData>>,
                                                   index: seq<nat>,
                                                   ids: seq<nat>, position: seq<nat>, n: nat)
    requires |phys| == |index| && Numbering(index, ids, position) && CollectedUpTo(collected, phys, index, ids, n)
    requires code.PLogP(0.0) == 0.0
    ensures |collected| == |ids|
    ensures NodeFlowLog(code, collected, Identity(|ids|), n) == NodeFlowLog(code, phys, index, n)
  {
    SameNumber(collected, phys, index, ids, n);
    hide CollectedUpTo, PhysLog, Numbering;
    forall p | 0 <= p < n
      ensures PhysLogs(code, collected, Identity(|ids|), n)[p] == PhysLogs(code, phys, index, n)[p]
    {
      ConsolidatedPhysLog(code, collected, phys, index, ids, position, n, p);
    }
    assert PhysLogs(code, collected, Identity(|ids|), n) == PhysLogs(code, phys, index, n);
  }

  // ----- The objective of a memory network -----

  /** The number the optimizer minimises on a memory network, as a function of the partition alone. */
  function MemoryObjective(code: Code, exitNetworkFlow: real, net: Network, phys: seq<seq<PhysData>>,
                           numPhysicalNodes: nat, index: seq<nat>): real
    requires net.Valid() && |net.nodes| == |index| == |phys|
  {
    Codelength(code, exitNetworkFlow, NodeFlowLog(code, phys, index, numPhysicalNodes), AllModuleData(net, index))
  }

  /** Starting over on the consolidated memory network gives the objective of the partition that was
      consolidated. */
  lemma {:induction false} ConsolidatedMemoryObjective(code: Code, exitNetworkFlow: real, net: Network,
                                                       undirected: bool,
                                                       phys: seq<seq<PhysData>>, collected: seq<seq<PhysData>>,
                                                           index: seq<nat>,
                                                       ids: seq<nat>, position: seq<nat>, n: nat)
    requires net.Valid() && net.Partition(index) && |phys| == |index| && Numbering(index, ids, position)
    requires CollectedUpTo(collected, phys, index, ids, n) && code.PLogP(0.0) == 0.0
    ensures EdgesOk(ModuleLinks(net.edges, index, undirected), |position|)
    ensures var small := Consolidated(net, index, undirected, ids, position);
            && small.Valid() && |small.nodes| == |ids| == |collected|
            && MemoryObjective(code, exitNetworkFlow, small, collected, n, Identity(|ids|))
               == MemoryObjective(code, exitNetworkFlow, net, phys, n, index)
  {
    hide Codelength, NodeFlowLog, CollectedUpTo, Objective, ModuleLinks, NumModules;
    var setting := Setting(code, NO_BIAS, exitNetworkFlow, NodeFlowLog(code, phys, index, n));
    ConsolidatedNodeFlowLog(code, collected, phys, index, ids, position, n);
    ConsolidatedObjective(setting, net, index, undirected, ids, position);
    WithoutBias(setting, net, index);
    WithoutBias(setting, Consolidated(net, index, undirected, ids, position), Identity(|ids|));
  }
}
