/** The memory objective's index: for every physical node, the modules that hold some of its flow.

    In a memory network a node carries flow of one or more physical nodes, and two nodes of one
    module that carry the same physical node share its codeword. The index keeps, per physical
    node, a list sorted by module with one entry for every module that has a carrier of it. */
module MemoryIndex {
  import opened Sums
  import opened FlowNetwork
  import opened MapEquations
  import opened Logarithms
  import opened Partitions

  /** Flow of one physical node that a node of the network carries. */
  datatype PhysData = PhysData(physNodeIndex: nat, sumFlow: real)

  /** Entry of one module: its number of carriers and their flow. */
  datatype ModuleMemNodes = ModuleMemNodes(moduleId: nat, numMemNodes: nat, sumFlow: real)

  // ----- From-scratch values -----

  ghost predicate PhysicalNodesOk(carried: seq<PhysData>, numPhysicalNodes: nat)
  {
    && (forall k :: 0 <= k < |carried| ==> carried[k].physNodeIndex < numPhysicalNodes)
    && (forall k, l :: 0 <= k < l < |carried| ==> carried[k].physNodeIndex != carried[l].physNodeIndex)
  }

  /** A memory network: what every node carries. */
  ghost predicate MemoryOk(phys: seq<seq<PhysData>>, numPhysicalNodes: nat)
  {
    forall i :: 0 <= i < |phys| ==> PhysicalNodesOk(phys[i], numPhysicalNodes)
  }

  ghost predicate Carries(carried: seq<PhysData>, p: nat)
  {
    exists k :: 0 <= k < |carried| && carried[k].physNodeIndex == p
  }

  function FlowOn(carried: seq<PhysData>, p: nat): real
  {
    if carried == [] then 0.0
    else
      var last := carried[|carried| - 1];
      FlowOn(carried[..|carried| - 1], p) + (if last.physNodeIndex == p then last.sumFlow else 0.0)
  }

  function PhysFlows(phys: seq<seq<PhysData>>, p: nat): (r: seq<real>)
    ensures |r| == |phys| && forall i :: 0 <= i < |phys| ==> r[i] == FlowOn(phys[i], p)
  {
    seq(|phys|, i requires 0 <= i < |phys| => FlowOn(phys[i], p))
  }

  /** The module of every carrier of physical node p; a node that does not carry it is in none. */
  ghost function Carriers(phys: seq<seq<PhysData>>, index: seq<nat>, p: nat): (r: seq<nat>)
    requires |phys| == |index|
    ensures |r| == |index|
    ensures forall i :: 0 <= i < |index| ==> r[i] == if Carries(phys[i], p) then index[i] else |index|
  {
    seq(|index|, i requires 0 <= i < |index| => if Carries(phys[i], p) then index[i] else |index|)
  }

  /** Number of carriers of physical node p in every module. */
  ghost function MemCounts(phys: seq<seq<PhysData>>, index: seq<nat>, p: nat): (r: seq<nat>)
    requires |phys| == |index|
    ensures |r| == |index|
  {
    AllMembers(Carriers(phys, index, p), |index|)
  }

  /** Flow of physical node p in every module. */
  function MemFlows(phys: seq<seq<PhysData>>, index: seq<nat>, p: nat): (r: seq<real>)
    requires |phys| == |index|
    ensures |r| == |index|
  {
    MembersAll(PhysFlows(phys, p), index, |index|)
  }

  /** Codewords of one physical node, one for every module. */
  function PhysLog(code: Code, phys: seq<seq<PhysData>>, index: seq<nat>, p: nat): real
    requires |phys| == |index|
  {
    Sum(Logs(code, MemFlows(phys, index, p)))
  }

  function PhysLogs(code: Code, phys: seq<seq<PhysData>>, index: seq<nat>, numPhysicalNodes: nat): (r: seq<real>)
    requires |phys| == |index|
    ensures |r| == numPhysicalNodes && forall p :: 0 <= p < numPhysicalNodes ==> r[p] == PhysLog(code, phys, index, p)
  {
    seq(numPhysicalNodes, (p: nat) => PhysLog(code, phys, index, p))
  }

  /** What the memory objective has in the place of the constant node term. */
  function NodeFlowLog(code: Code, phys: seq<seq<PhysData>>, index: seq<nat>, numPhysicalNodes: nat): real
    requires |phys| == |index|
  {
    Sum(PhysLogs(code, phys, index, numPhysicalNodes))
  }

  lemma {:induction false} FlowOnAbsent(carried: seq<PhysData>, p: nat)
    requires !Carries(carried, p)
    ensures FlowOn(carried, p) == 0.0
  {
    if carried != [] {
      var n := |carried| - 1;
      assert carried[n].physNodeIndex != p;
      forall k | 0 <= k < n ensures carried[..n][k].physNodeIndex != p {
        assert carried[k].physNodeIndex != p;
      }
      FlowOnAbsent(carried[..n], p);
    }
  }

  lemma {:induction false} FlowOnEntry(carried: seq<PhysData>, k: nat)
    requires k < |carried|
    requires forall i, j :: 0 <= i < j < |carried| ==> carried[i].physNodeIndex != carried[j].physNodeIndex
    ensures FlowOn(carried, carried[k].physNodeIndex) == carried[k].sumFlow
    ensures Carries(carried, carried[k].physNodeIndex)
  {
    var n := |carried| - 1;
    if k == n {
      forall i | 0 <= i < n ensures carried[..n][i].physNodeIndex != carried[n].physNodeIndex {
        assert carried[i].physNodeIndex != carried[n].physNodeIndex;
      }
      FlowOnAbsent(carried[..n], carried[n].physNodeIndex);
    } else {
      FlowOnEntry(carried[..n], k);
    }
  }

  /** A module without carriers has no flow of the physical node. */
  lemma {:induction false} NoCarriersNoFlow(phys: seq<seq<PhysData>>, index: seq<nat>, p: nat, m: nat)
    requires |phys| == |index| && m < |index| && MemCounts(phys, index, p)[m] == 0
    ensures MemFlows(phys, index, p)[m] == 0.0
  {
    CountZero(Carriers(phys, index, p), m);
    forall i | 0 <= i < |index| && index[i] == m ensures PhysFlows(phys, p)[i] == 0.0 {
      assert Carriers(phys, index, p)[i] != m;
      FlowOnAbsent(phys[i], p);
    }
    MembersZero(PhysFlows(phys, p), index, m);
  }

  // ----- One row of the index -----

  ghost predicate RowSorted(row: seq<ModuleMemNodes>)
  {
    forall k, l :: 0 <= k < l < |row| ==> row[k].moduleId < row[l].moduleId
  }

  ghost predicate HasModule(row: seq<ModuleMemNodes>, m: nat)
  {
    exists k :: 0 <= k < |row| && row[k].moduleId == m
  }

  /** The row holds exactly the modules with a carrier, each with its count and flow. */
  ghost predicate RowIs(row: seq<ModuleMemNodes>, counts: seq<nat>, flows: seq<real>)
  {
    && |counts| == |flows| && RowSorted(row)
    && (forall k :: 0 <= k < |row| ==> EntryIs(row[k], counts, flows))
    && (forall m :: 0 <= m < |counts| && counts[m] > 0 ==> HasModule(row, m))
  }

  ghost predicate EntryIs(e: ModuleMemNodes, counts: seq<nat>, flows: seq<real>)
    requires |counts| == |flows|
  {
    e.moduleId < |counts| && counts[e.moduleId] > 0
    && e.numMemNodes == counts[e.moduleId] && e.sumFlow == flows[e.moduleId]
  }

  /** Every row is exact. */
  ghost predicate IndexIs(rows: seq<seq<ModuleMemNodes>>, phys: seq<seq<PhysData>>, index: seq<nat>)
    requires |phys| == |index|
  {
    forall p :: 0 <= p < |rows| ==> RowIs(rows[p], MemCounts(phys, index, p), MemFlows(phys, index, p))
  }

  /** Position of the first entry that is not below module m. */
  method FindModuleMemNodes(row: seq<ModuleMemNodes>, m: nat) returns (at: nat)
    requires RowSorted(row)
    ensures at <= |row|
    ensures forall k :: 0 <= k < at ==> row[k].moduleId < m
    ensures forall k :: at <= k < |row| ==> row[k].moduleId >= m
    ensures HasModule(row, m) <==> at < |row| && row[at].moduleId == m
  {
    var low, high := 0, |row|;
    while low < high
      invariant 0 <= low <= high <= |row|
      invariant forall k :: 0 <= k < low ==> row[k].moduleId < m
      invariant forall k :: high <= k < |row| ==> row[k].moduleId >= m
    {
      var mid := (low + high) / 2;
      if row[mid].moduleId < m {
        low := mid + 1;
      } else {
        high := mid;
      }
    }
    at := low;
  }

  /** One carrier leaves a module: its entry goes with the last one. */
  function Removed(row: seq<ModuleMemNodes>, at: nat, flow: real): seq<ModuleMemNodes>
    requires at < |row| && row[at].numMemNodes > 0
  {
    if row[at].numMemNodes == 1 then row[..at] + row[at + 1..]
    else row[at := ModuleMemNodes(row[at].moduleId, row[at].numMemNodes - 1, row[at].sumFlow - flow)]
  }

  /** One carrier joins a module: a new entry if it is the first one. */
  function Inserted(row: seq<ModuleMemNodes>, at: nat, m: nat, flow: real): seq<ModuleMemNodes>
    requires at <= |row|
  {
    if at == |row| || row[at].moduleId != m then row[..at] + [ModuleMemNodes(m, 1, flow)] + row[at..]
    else row[at := ModuleMemNodes(m, row[at].numMemNodes + 1, row[at].sumFlow + flow)]
  }

  lemma {:induction false} RemovedIs(row: seq<ModuleMemNodes>, counts: seq<nat>, flows: seq<real>, at: nat, flow: real)
    requires RowIs(row, counts, flows) && at < |row|
    ensures row[at].moduleId < |counts| && row[at].numMemNodes > 0
    ensures var m := row[at].moduleId;
            RowIs(Removed(row, at, flow), counts[m := counts[m] - 1], flows[m := flows[m] - flow])
  {
    assert EntryIs(row[at], counts, flows);
    var m := row[at].moduleId;
    forall k | 0 <= k < |row| && k != at ensures row[k].moduleId != m && EntryIs(row[k], counts, flows) {
      assert if k < at then row[k].moduleId < row[at].moduleId else row[at].moduleId < row[k].moduleId;
    }
    if row[at].numMemNodes == 1 {
      Erased(row, counts, flows, at, counts[m := counts[m] - 1], flows[m := flows[m] - flow]);
    } else {
      Replaced(row, counts, flows, at, Removed(row, at, flow)[at], counts[m := counts[m] - 1],
          flows[m := flows[m] - flow]);
    }
  }

  lemma {:induction false} ErasedSorted(row: seq<ModuleMemNodes>, at: nat)
    requires RowSorted(row) && at < |row|
    ensures RowSorted(row[..at] + row[at + 1..])
  {
    var row' := row[..at] + row[at + 1..];
    forall k, l | 0 <= k < l < |row'| ensures row'[k].moduleId < row'[l].moduleId {
      var i, j := if k < at then k else k + 1, if l < at then l else l + 1;
      assert row'[k] == row[i] && row'[l] == row[j];
    }
  }

  lemma {:induction false} PlacedSorted(row: seq<ModuleMemNodes>, at: nat, e: ModuleMemNodes)
    requires RowSorted(row) && at <= |row|
    requires forall k :: 0 <= k < at ==> row[k].moduleId < e.moduleId
    requires forall k :: at <= k < |row| ==> row[k].moduleId > e.moduleId
    ensures RowSorted(row[..at] + [e] + row[at..])
  {
    var row' := row[..at] + [e] + row[at..];
    forall k, l | 0 <= k < l < |row'| ensures row'[k].moduleId < row'[l].moduleId {
      assert k < at ==> row'[k] == row[k];
      assert l < at ==> row'[l] == row[l];
      assert k > at ==> row'[k] == row[k - 1];
      assert l > at ==> row'[l] == row[l - 1];
    }
  }

  lemma {:induction false} Erased(row: seq<ModuleMemNodes>, counts: seq<nat>, flows: seq<real>, at: nat,
                                  counts': seq<nat>, flows': seq<real>)
    requires RowIs(row, counts, flows) && at < |row| && |counts'| == |flows'| == |counts|
    requires counts' == counts[row[at].moduleId := 0]
    requires forall m :: 0 <= m < |flows| && m != row[at].moduleId ==> flows'[m] == flows[m]
    ensures RowIs(row[..at] + row[at + 1..], counts', flows')
  {
    var row' := row[..at] + row[at + 1..];
    forall k | 0 <= k < |row| && k != at ensures row[k].moduleId != row[at].moduleId {
      assert if k < at then row[k].moduleId < row[at].moduleId else row[at].moduleId < row[k].moduleId;
    }
    ErasedSorted(row, at);
    hide RowSorted;
    forall k | 0 <= k < |row'| ensures EntryIs(row'[k], counts', flows') {
      var j := if k < at then k else k + 1;
      assert row'[k] == row[j] && EntryIs(row[j], counts, flows) && row[j].moduleId != row[at].moduleId;
    }
    forall m | 0 <= m < |counts'| && counts'[m] > 0 ensures HasModule(row', m) {
      assert HasModule(row, m);
      var k :| 0 <= k < |row| && row[k].moduleId == m;
      assert row'[if k > at then k - 1 else k].moduleId == m;
    }
  }

  lemma {:induction false} Replaced(row: seq<ModuleMemNodes>, counts: seq<nat>, flows: seq<real>, at: nat,
                                    e: ModuleMemNodes,
                                    counts': seq<nat>, flows': seq<real>)
    requires RowIs(row, counts, flows) && at < |row| && |counts'| == |flows'| == |counts|
    requires e.moduleId == row[at].moduleId && EntryIs(e, counts', flows')
    requires forall m :: 0 <= m < |flows| && m != e.moduleId ==> flows'[m] == flows[m] && counts'[m] == counts[m]
    ensures RowIs(row[at := e], counts', flows')
  {
    var row' := row[at := e];
    forall k | 0 <= k < |row'| ensures EntryIs(row'[k], counts', flows') {
      assert EntryIs(row[k], counts, flows);
      assert k < at ==> row[k].moduleId < row[at].moduleId;
      assert k > at ==> row[at].moduleId < row[k].moduleId;
    }
    forall m | 0 <= m < |counts'| && counts'[m] > 0 ensures HasModule(row', m) {
      if m == e.moduleId {
        assert row'[at].moduleId == m;
      } else {
        assert HasModule(row, m);
        var k :| 0 <= k < |row| && row[k].moduleId == m;
        assert row'[k].moduleId == m;
      }
    }
  }

  lemma {:induction false} Placed(row: seq<ModuleMemNodes>, counts: seq<nat>, flows: seq<real>, at: nat,
                                  e: ModuleMemNodes,
                                  counts': seq<nat>, flows': seq<real>)
    requires RowIs(row, counts, flows) && at <= |row| && |counts'| == |flows'| == |counts|
    requires forall k :: 0 <= k < at ==> row[k].moduleId < e.moduleId
    requires forall k :: at <= k < |row| ==> row[k].moduleId > e.moduleId
    requires EntryIs(e, counts', flows')
    requires forall m :: 0 <= m < |flows| && m != e.moduleId ==> flows'[m] == flows[m] && counts'[m] == counts[m]
    ensures RowIs(row[..at] + [e] + row[at..], counts', flows')
  {
    hide RowSorted;
    var row' := row[..at] + [e] + row[at..];
    PlacedSorted(row, at, e);
    assert row'[at] == e;
    forall k | 0 <= k < |row'| ensures EntryIs(row'[k], counts', flows') {
      if k != at {
        var j := if k < at then k else k - 1;
        assert row'[k] == row[j] && EntryIs(row[j], counts, flows);
      }
    }
    forall m | 0 <= m < |counts'| && counts'[m] > 0 ensures HasModule(row', m) {
      if m != e.moduleId {
        assert HasModule(row, m);
        var k :| 0 <= k < |row| && row[k].moduleId == m;
        assert row'[if k >= at then k + 1 else k].moduleId == m;
      }
    }
  }

  lemma {:induction false} InsertedIs(row: seq<ModuleMemNodes>, counts: seq<nat>, flows: seq<real>, at: nat, m: nat,
                                      flow: real)
    requires RowIs(row, counts, flows) && m < |counts| && at <= |row|
    requires forall k :: 0 <= k < at ==> row[k].moduleId < m
    requires forall k :: at <= k < |row| ==> row[k].moduleId >= m
    requires counts[m] == 0 ==> flows[m] == 0.0
    ensures counts[m] > 0 <==> at < |row| && row[at].moduleId == m
    ensures at < |row| && row[at].moduleId == m ==> row[at].sumFlow == flows[m]
    ensures RowIs(Inserted(row, at, m, flow), counts[m := counts[m] + 1], flows[m := flows[m] + flow])
  {
    var counts', flows' := counts[m := counts[m] + 1], flows[m := flows[m] + flow];
    if at < |row| && row[at].moduleId == m {
      assert EntryIs(row[at], counts, flows);
      Replaced(row, counts, flows, at, Inserted(row, at, m, flow)[at], counts', flows');
    } else {
      forall k | at <= k < |row| ensures row[k].moduleId > m {
        assert at < k ==> row[at].moduleId < row[k].moduleId;
      }
      assert !HasModule(row, m);
      Placed(row, counts, flows, at, ModuleMemNodes(m, 1, flow), counts', flows');
    }
  }

  lemma {:induction false} HasModuleMore(row: seq<ModuleMemNodes>, j: nat)
    requires RowSorted(row) && j < |row|
    ensures forall m: nat :: HasModule(row[..j + 1], m) <==> HasModule(row[..j], m) || m == row[j].moduleId
    ensures !HasModule(row[..j], row[j].moduleId)
  {
    forall m: nat ensures HasModule(row[..j + 1], m) <==> HasModule(row[..j], m) || m == row[j].moduleId {
      if HasModule(row[..j], m) {
        var k :| 0 <= k < j && row[..j][k].moduleId == m;
        assert row[..j + 1][k].moduleId == m;
      }
      assert row[..j + 1][j].moduleId == row[j].moduleId;
      if HasModule(row[..j + 1], m) {
        var k :| 0 <= k < j + 1 && row[..j + 1][k].moduleId == m;
        assert k < j ==> row[..j][k].moduleId == m;
      }
    }
  }

  // ----- The effect of one move -----

  lemma {:induction false} MemCountsMove(phys: seq<seq<PhysData>>, index: seq<nat>, a: nat, to: nat, p: nat)
    requires |phys| == |index| && a < |index| && index[a] < |index| && to < |index| && index[a] != to
    ensures Carries(phys[a], p) ==> MemCounts(phys, index, p)[index[a]] > 0
    ensures MemCounts(phys, index[a := to], p)
         == if !Carries(phys[a], p) then MemCounts(phys, index, p)
            else
              var o, counts := index[a], MemCounts(phys, index, p);
              counts[o := if counts[o] > 0 then counts[o] - 1 else 0][to := counts[to] + 1]
  {
    var before, after := Carriers(phys, index, p), Carriers(phys, index[a := to], p);
    if Carries(phys[a], p) {
      assert after == before[a := to];
      CountZero(before, index[a]);
      assert before[a] == index[a];
      forall m | 0 <= m < |index| ensures Count(after, m)
          == Count(before, m) - (if index[a] == m then 1 else 0) + (if to == m then 1 else 0) {
        CountMove(before, a, to, m);
      }
    } else {
      assert after == before;
    }
  }

  lemma {:induction false} MemFlowsMove(phys: seq<seq<PhysData>>, index: seq<nat>, a: nat, to: nat, p: nat)
    requires |phys| == |index| && a < |index| && index[a] < |index| && to < |index| && index[a] != to
    ensures var o, flows, flow := index[a], MemFlows(phys, index, p), FlowOn(phys[a], p);
            MemFlows(phys, index[a := to], p) == flows[o := flows[o] - flow][to := flows[to] + flow]
  {
    var o, flows, flow := index[a], MemFlows(phys, index, p), FlowOn(phys[a], p);
    var after := MemFlows(phys, index[a := to], p);
    forall m | 0 <= m < |index| ensures after[m] == flows[o := flows[o] - flow][to := flows[to] + flow][m] {
      MembersMove(PhysFlows(phys, p), index, a, to, m);
    }
  }

  /** A physical node the moving node does not carry keeps its row. */
  lemma {:induction false} RowKept(row: seq<ModuleMemNodes>, phys: seq<seq<PhysData>>, index: seq<nat>, a: nat,
                                   to: nat, p: nat)
    requires |phys| == |index| && a < |index| && index[a] < |index| && to < |index| && index[a] != to
    requires !Carries(phys[a], p)
    requires RowIs(row, MemCounts(phys, index, p), MemFlows(phys, index, p))
    ensures RowIs(row, MemCounts(phys, index[a := to], p), MemFlows(phys, index[a := to], p))
    ensures MemFlows(phys, index[a := to], p) == MemFlows(phys, index, p)
  {
    hide RowIs, MemCounts, MemFlows;
    MemCountsMove(phys, index, a, to, p);
    MemFlowsMove(phys, index, a, to, p);
    FlowOnAbsent(phys[a], p);
    var o, flows := index[a], MemFlows(phys, index, p);
    assert flows[o := flows[o] - 0.0][to := flows[to] + 0.0] == flows;
  }

  /** The row while the carrier is in neither module. */
  ghost predicate RowBetween(row: seq<ModuleMemNodes>, phys: seq<seq<PhysData>>, index: seq<nat>, a: nat,
                             entry: PhysData)
    requires |phys| == |index| && a < |index| && index[a] < |index|
  {
    var o, counts, flows := index[a], MemCounts(phys, index, entry.physNodeIndex), MemFlows(phys, index,
        entry.physNodeIndex);
    counts[o] > 0 && RowIs(row, counts[o := counts[o] - 1], flows[o := flows[o] - entry.sumFlow])
  }

  /** The entry of the old module is there, and removing the carrier from it is exact. */
  lemma {:induction false} RowLeft(row: seq<ModuleMemNodes>, phys: seq<seq<PhysData>>, index: seq<nat>, a: nat, k: nat,
                                   at: nat)
    requires |phys| == |index| && a < |index| && index[a] < |index| && k < |phys[a]|
    requires var p := phys[a][k].physNodeIndex; RowIs(row, MemCounts(phys, index, p), MemFlows(phys, index, p))
    ensures HasModule(row, index[a])
    ensures at < |row| && row[at].moduleId == index[a] ==>
              row[at].numMemNodes > 0 && row[at].sumFlow == MemFlows(phys, index, phys[a][k].physNodeIndex)[index[a]]
              && RowBetween(Removed(row, at, phys[a][k].sumFlow), phys, index, a, phys[a][k])
  {
    hide Removed, MemFlows;
    var entry, o := phys[a][k], index[a];
    var p := entry.physNodeIndex;
    assert Carries(phys[a], p);
    assert Carriers(phys, index, p)[a] == o;
    CountZero(Carriers(phys, index, p), o);
    if at < |row| && row[at].moduleId == o {
      RemovedIs(row, MemCounts(phys, index, p), MemFlows(phys, index, p), at, entry.sumFlow);
    }
  }

  /** The new module has an entry exactly if it has a carrier, and inserting the carrier gives the
      row of the new partition. */
  lemma {:induction false} RowJoined(row: seq<ModuleMemNodes>, phys: seq<seq<PhysData>>, index: seq<nat>, a: nat,
                                     to: nat,
                                     k: nat, numPhysicalNodes: nat, at: nat)
    requires |phys| == |index| && a < |index| && index[a] < |index| && to < |index| && index[a] != to
    requires PhysicalNodesOk(phys[a], numPhysicalNodes) && k < |phys[a]|
    requires RowBetween(row, phys, index, a, phys[a][k]) && at <= |row|
    requires forall j :: 0 <= j < at ==> row[j].moduleId < to
    requires forall j :: at <= j < |row| ==> row[j].moduleId >= to
    ensures var p := phys[a][k].physNodeIndex;
            && (MemCounts(phys, index, p)[to] > 0 <==> at < |row| && row[at].moduleId == to)
            && (at < |row| && row[at].moduleId == to ==> row[at].sumFlow == MemFlows(phys, index, p)[to])
            && RowIs(Inserted(row, at, to, phys[a][k].sumFlow),
                     MemCounts(phys, index[a := to], p), MemFlows(phys, index[a := to], p))
  {
    hide Inserted, MemFlows, MemCounts;
    var entry, o := phys[a][k], index[a];
    var p, flow := entry.physNodeIndex, entry.sumFlow;
    FlowOnEntry(phys[a], k);
    MemCountsMove(phys, index, a, to, p);
    MemFlowsMove(phys, index, a, to, p);
    var counts, flows := MemCounts(phys, index, p), MemFlows(phys, index, p);
    if counts[to] == 0 { NoCarriersNoFlow(phys, index, p, to); }
    hide RowIs;
    InsertedIs(row, counts[o := counts[o] - 1], flows[o := flows[o] - flow], at, to, flow);
  }

  // ----- Building the index: one module per node -----

  ghost function SingleCounts(phys: seq<seq<PhysData>>, p: nat): (r: seq<nat>)
    ensures |r| == |phys| && forall m :: 0 <= m < |r| ==> r[m] == if Carries(phys[m], p) then 1 else 0
  {
    seq(|phys|, m requires 0 <= m < |phys| => if Carries(phys[m], p) then 1 else 0)
  }

  ghost predicate IndexIsSingle(rows: seq<seq<ModuleMemNodes>>, phys: seq<seq<PhysData>>)
  {
    forall p :: 0 <= p < |rows| ==> RowIs(rows[p], SingleCounts(phys, p), PhysFlows(phys, p))
  }

  lemma {:induction false} SingleIs(rows: seq<seq<ModuleMemNodes>>, phys: seq<seq<PhysData>>)
    requires IndexIsSingle(rows, phys)
    ensures IndexIs(rows, phys, Identity(|phys|))
  {
    hide RowIs;
    var n := |phys|;
    forall p | 0 <= p < |rows|
      ensures MemCounts(phys, Identity(n), p) == SingleCounts(phys, p)
                && MemFlows(phys, Identity(n), p) == PhysFlows(phys, p)
    {
      forall m | 0 <= m < n
        ensures Count(Carriers(phys, Identity(n), p), m) == SingleCounts(phys, p)[m]
        ensures Members(PhysFlows(phys, p), Identity(n), m) == PhysFlows(phys, p)[m]
      {
        MembersSingle(PhysFlows(phys, p), Identity(n), m);
        if Carries(phys[m], p) {
          CountDistinct(Carriers(phys, Identity(n), p), m);
        } else {
          CountZero(Carriers(phys, Identity(n), p), m);
        }
      }
    }
    forall p | 0 <= p < |rows| ensures RowIs(rows[p], MemCounts(phys, Identity(n), p), MemFlows(phys, Identity(n), p)) {
      assert MemCounts(phys, Identity(n), p) == SingleCounts(phys, p);
    }
  }

  /** The nodes before i in full, node i up to its entry k, nothing of the rest. */
  function Partly(phys: seq<seq<PhysData>>, i: nat, k: nat): (r: seq<seq<PhysData>>)
    requires i < |phys| ==> k <= |phys[i]|
    ensures |r| == |phys|
    ensures forall m :: 0 <= m < |phys| ==> r[m] == if m < i then phys[m] else if m == i then phys[m][..k] else []
  {
    seq(|phys|, m requires 0 <= m < |phys| => if m < i then phys[m] else if m == i then phys[m][..k] else [])
  }

  lemma {:induction false} PartlyNone(phys: seq<seq<PhysData>>, numPhysicalNodes: nat)
    ensures IndexIsSingle(seq(numPhysicalNodes, (p: nat) => []), Partly(phys, 0, 0))
  {
  }

  lemma {:induction false} PartlyNext(phys: seq<seq<PhysData>>, i: nat)
    requires i < |phys|
    ensures Partly(phys, i, |phys[i]|) == Partly(phys, i + 1, 0)
  {
    assert phys[i][..|phys[i]|] == phys[i];
    if i + 1 < |phys| { assert phys[i + 1][..0] == []; }
  }

  /** Appending the next entry keeps the row sorted and exact. */
  lemma {:induction false} PartlyStep(rows: seq<seq<ModuleMemNodes>>, phys: seq<seq<PhysData>>, i: nat, k: nat)
    requires MemoryOk(phys, |rows|) && i < |phys| && k < |phys[i]|
    requires IndexIsSingle(rows, Partly(phys, i, k))
    ensures phys[i][k].physNodeIndex < |rows|
    ensures var e := phys[i][k];
            IndexIsSingle(rows[e.physNodeIndex := rows[e.physNodeIndex] + [ModuleMemNodes(i, 1, e.sumFlow)]],
                          Partly(phys, i, k + 1))
  {
    var before, after, e := Partly(phys, i, k), Partly(phys, i, k + 1), phys[i][k];
    var rows' := rows[e.physNodeIndex := rows[e.physNodeIndex] + [ModuleMemNodes(i, 1, e.sumFlow)]];
    assert PhysicalNodesOk(phys[i], |rows|);
    CarriesMore(phys[i], k);
    assert phys[i][..k + 1][..k] == phys[i][..k];
    FlowOnAbsent(phys[i][..k], e.physNodeIndex);
    hide RowIs, Carries;
    forall p | 0 <= p < |rows'| ensures RowIs(rows'[p], SingleCounts(after, p), PhysFlows(after, p)) {
      if p == e.physNodeIndex {
        AppendedEntry(rows[p], before, after, i, e);
      } else {
        assert SingleCounts(after, p) == SingleCounts(before, p);
        assert PhysFlows(after, p) == PhysFlows(before, p);
      }
    }
  }

  lemma {:induction false} AppendedEntry(row: seq<ModuleMemNodes>, before: seq<seq<PhysData>>,
                                         after: seq<seq<PhysData>>,
                                         i: nat, e: PhysData)
    requires |before| == |after| && i < |before|
    requires forall m :: 0 <= m < |before| && m != i ==> after[m] == before[m]
    requires forall m :: i < m < |before| ==> before[m] == []
    requires !Carries(before[i], e.physNodeIndex) && Carries(after[i], e.physNodeIndex)
    requires FlowOn(after[i], e.physNodeIndex) == e.sumFlow
    requires RowIs(row, SingleCounts(before, e.physNodeIndex), PhysFlows(before, e.physNodeIndex))
    ensures RowIs(row + [ModuleMemNodes(i, 1, e.sumFlow)], SingleCounts(after, e.physNodeIndex),
              PhysFlows(after, e.physNodeIndex))
  {
    var p := e.physNodeIndex;
    forall k | 0 <= k < |row| ensures row[k].moduleId < i {
      assert EntryIs(row[k], SingleCounts(before, p), PhysFlows(before, p));
      assert Carries(before[row[k].moduleId], p);
    }
    Placed(row, SingleCounts(before, p), PhysFlows(before, p), |row|, ModuleMemNodes(i, 1, e.sumFlow),
           SingleCounts(after, p), PhysFlows(after, p));
    assert row[..|row|] + [ModuleMemNodes(i, 1, e.sumFlow)] + row[|row|..] == row + [ModuleMemNodes(i, 1, e.sumFlow)];
  }

  lemma {:induction false} CarriesMore(carried: seq<PhysData>, k: nat)
    requires k < |carried|
    requires forall i, j :: 0 <= i < j < |carried| ==> carried[i].physNodeIndex != carried[j].physNodeIndex
    ensures forall p: nat :: Carries(carried[..k + 1], p) <==> Carries(carried[..k], p) || p == carried[k].physNodeIndex
    ensures !Carries(carried[..k], carried[k].physNodeIndex)
  {
    forall p: nat
      ensures Carries(carried[..k + 1], p) <==> Carries(carried[..k], p) || p == carried[k].physNodeIndex
    {
      if Carries(carried[..k], p) {
        var j :| 0 <= j < k && carried[..k][j].physNodeIndex == p;
        assert carried[..k + 1][j].physNodeIndex == p;
      }
      if p == carried[k].physNodeIndex {
        assert carried[..k + 1][k].physNodeIndex == p;
      }
      if Carries(carried[..k + 1], p) {
        var j :| 0 <= j < k + 1 && carried[..k + 1][j].physNodeIndex == p;
        assert j < k ==> carried[..k][j].physNodeIndex == p;
      }
    }
  }

  // ----- Codewords from the index -----

  function EntryLogs(code: Code, row: seq<ModuleMemNodes>): (r: seq<real>)
    ensures |r| == |row| && forall k :: 0 <= k < |row| ==> r[k] == code.PLogP(row[k].sumFlow)
  {
    seq(|row|, k requires 0 <= k < |row| => code.PLogP(row[k].sumFlow))
  }

  /** The entries of a row give all codewords of the physical node. */
  lemma {:induction false} RowLogs(code: Code, row: seq<ModuleMemNodes>, phys: seq<seq<PhysData>>, index: seq<nat>,
                                   p: nat)
    requires |phys| == |index| && RowIs(row, MemCounts(phys, index, p), MemFlows(phys, index, p))
    requires code.PLogP(0.0) == 0.0
    ensures Sum(EntryLogs(code, row)) == PhysLog(code, phys, index, p)
  {
    hide MemCounts, MemFlows, Code.PLogP, Sum;
    var counts, flows := MemCounts(phys, index, p), MemFlows(phys, index, p);
    var ids := seq(|row|, k requires 0 <= k < |row| => row[k].moduleId);
    forall k | 0 <= k < |row| ensures ids[k] < |flows| && row[k].sumFlow == flows[ids[k]] {
      assert EntryIs(row[k], counts, flows);
    }
    forall m | 0 <= m < |flows| && counts[m] > 0 ensures m in ids {
      assert HasModule(row, m);
      var k :| 0 <= k < |row| && row[k].moduleId == m;
      assert ids[k] == m;
    }
    forall m | 0 <= m < |flows| && counts[m] == 0 ensures flows[m] == 0.0 {
      NoCarriersNoFlow(phys, index, p, m);
    }
    SumSelect(Logs(code, flows), ids, EntryLogs(code, row));
  }
}
