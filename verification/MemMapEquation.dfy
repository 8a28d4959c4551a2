/** The memory objective: the map equation in which the members of a module that carry the same
    physical node share one codeword. The codewords are kept exact through the index of module
    flows per physical node, move by move. */
module MemMapEquations {
  import opened Sums
  import opened FlowNetwork
  import opened MapEquations
  import opened Logarithms
  import opened Partitions
  import opened LinkTables
  import opened MemoryIndex

  /** Contribution of a node's physical nodes to a delta. */
  datatype MemPart = MemPart(sumDeltaPlogp: real, sumPlogp: real)
  {
    function Plus(other: MemPart): MemPart
    {
      MemPart(sumDeltaPlogp + other.sumDeltaPlogp, sumPlogp + other.sumPlogp)
    }
  }

  const NO_MEMORY := MemPart(0.0, 0.0)

  datatype MemDeltaFlow = MemDeltaFlow(flow: DeltaFlow, mem: MemPart)

  /** Change of the codewords that two deltas stand for. */
  function Contribution(oldPart: MemPart, newPart: MemPart): real
  {
    oldPart.sumDeltaPlogp + newPart.sumDeltaPlogp + oldPart.sumPlogp - newPart.sumPlogp
  }

  // ----- What the deltas have to carry -----

  /** One physical node with flow f leaves (or joins) a module that has the given flow of it. */
  function EntryPart(code: Code, moduleFlow: real, f: real, own: bool): MemPart
  {
    MemPart(code.PLogP(if own then moduleFlow - f else moduleFlow + f) - code.PLogP(moduleFlow), code.PLogP(f))
  }

  /** The precomputed contribution for one module: only physical nodes the module already has count. */
  ghost function PartOf(code: Code, phys: seq<seq<PhysData>>, index: seq<nat>, oldM: nat, carried: seq<PhysData>,
                        m: nat): MemPart
    requires |phys| == |index| && m < |index|
  {
    if carried == [] then NO_MEMORY
    else
      var rest, e := carried[..|carried| - 1], carried[|carried| - 1];
      PartOf(code, phys, index, oldM, rest, m).Plus(
        if MemCounts(phys, index, e.physNodeIndex)[m] > 0 then
          EntryPart(code, MemFlows(phys, index, e.physNodeIndex)[m], e.sumFlow, m == oldM)
        else NO_MEMORY)
  }

  /** The contribution computed during the move: every physical node of the moving node counts. */
  ghost function PartOnMove(code: Code, phys: seq<seq<PhysData>>, index: seq<nat>, oldM: nat, carried: seq<PhysData>,
                            m: nat): MemPart
    requires |phys| == |index| && m < |index|
  {
    if carried == [] then NO_MEMORY
    else
      var rest, e := carried[..|carried| - 1], carried[|carried| - 1];
      PartOnMove(code, phys, index, oldM, rest, m).Plus(
        EntryPart(code, MemFlows(phys, index, e.physNodeIndex)[m], e.sumFlow, m == oldM))
  }

  /** Change of the codewords of one physical node when flow f of it moves. */
  function EntryChange(code: Code, flows: seq<real>, f: real, oldM: nat, newM: nat): real
    requires oldM < |flows| && newM < |flows|
  {
    (code.PLogP(flows[oldM] - f) - code.PLogP(flows[oldM])) + (code.PLogP(flows[newM] + f) - code.PLogP(flows[newM]))
  }

  /** How much the codewords really change. */
  ghost function TrueChange(code: Code, phys: seq<seq<PhysData>>, index: seq<nat>, oldM: nat, newM: nat,
                            carried: seq<PhysData>): real
    requires |phys| == |index| && oldM < |index| && newM < |index|
  {
    if carried == [] then 0.0
    else
      var rest, e := carried[..|carried| - 1], carried[|carried| - 1];
      TrueChange(code, phys, index, oldM, newM, rest)
      + EntryChange(code, MemFlows(phys, index, e.physNodeIndex), e.sumFlow, oldM, newM)
  }

  lemma {:induction false} RouteStep(code: Code, flows: seq<real>, f: real, oldM: nat, newM: nat, has: bool,
                                     oldPart: MemPart, newPart: MemPart)
    requires oldM < |flows| && newM < |flows|
    requires !has ==> flows[newM] == 0.0 && code.PLogP(0.0) == 0.0
    ensures Contribution(oldPart.Plus(EntryPart(code, flows[oldM], f, true)),
                         newPart.Plus(if has then EntryPart(code, flows[newM], f, false) else NO_MEMORY))
         == Contribution(oldPart, newPart) + EntryChange(code, flows, f, oldM, newM)
  {
    hide Code.PLogP;
  }

  /** Both routes give the true change. */
  lemma {:induction false} RoutesAgree(code: Code, phys: seq<seq<PhysData>>, index: seq<nat>, oldM: nat, newM: nat,
                                       carried: seq<PhysData>)
    requires |phys| == |index| && oldM < |index| && newM < |index| && oldM != newM && code.PLogP(0.0) == 0.0
    requires forall k :: 0 <= k < |carried| ==> MemCounts(phys, index, carried[k].physNodeIndex)[oldM] > 0
    ensures PartOf(code, phys, index, oldM, carried, oldM) == PartOnMove(code, phys, index, oldM, carried, oldM)
    ensures Contribution(PartOf(code, phys, index, oldM, carried, oldM), PartOf(code, phys, index, oldM, carried, newM))
         == TrueChange(code, phys, index, oldM, newM, carried)
    ensures Contribution(PartOnMove(code, phys, index, oldM, carried, oldM),
              PartOnMove(code, phys, index, oldM, carried, newM))
         == TrueChange(code, phys, index, oldM, newM, carried)
  {
    hide MemFlows, MemCounts, Code.PLogP, EntryPart, EntryChange, Contribution, MemPart.Plus;
    if carried == [] {
      assert Contribution(NO_MEMORY, NO_MEMORY) == 0.0 by { NothingContributed(); }
    } else {
      var rest, e := carried[..|carried| - 1], carried[|carried| - 1];
      forall k | 0 <= k < |rest| ensures MemCounts(phys, index, rest[k].physNodeIndex)[oldM] > 0 {
        assert rest[k] == carried[k];
      }
      RoutesAgree(code, phys, index, oldM, newM, rest);
      var has, flows := MemCounts(phys, index, e.physNodeIndex)[newM] > 0, MemFlows(phys, index, e.physNodeIndex);
      if !has { NoCarriersNoFlow(phys, index, e.physNodeIndex, newM); }
      RouteStep(code, flows, e.sumFlow, oldM, newM, has,
                PartOf(code, phys, index, oldM, rest, oldM), PartOf(code, phys, index, oldM, rest, newM));
      RouteStep(code, flows, e.sumFlow, oldM, newM, true,
                PartOnMove(code, phys, index, oldM, rest, oldM), PartOnMove(code, phys, index, oldM, rest, newM));
    }
  }

  lemma {:induction false} NothingContributed()
    ensures Contribution(NO_MEMORY, NO_MEMORY) == 0.0
  {
  }

  /** The codewords of the physical nodes in a list are those of the new partition. */
  ghost function MixedLogs(code: Code, phys: seq<seq<PhysData>>, index: seq<nat>, index': seq<nat>,
                           carried: seq<PhysData>,
                           numPhysicalNodes: nat): (r: seq<real>)
    requires |phys| == |index| == |index'|
    ensures |r| == numPhysicalNodes
    ensures forall p :: 0 <= p < numPhysicalNodes ==>
              r[p] == PhysLog(code, phys, if Carries(carried, p) then index' else index, p)
  {
    seq(numPhysicalNodes, (p: nat) => PhysLog(code, phys, if Carries(carried, p) then index' else index, p))
  }

  lemma {:induction false} PhysLogMove(code: Code, phys: seq<seq<PhysData>>, index: seq<nat>, a: nat, to: nat, p: nat)
    requires |phys| == |index| && a < |index| && index[a] < |index| && to < |index| && index[a] != to
    ensures PhysLog(code, phys, index[a := to], p)
         == PhysLog(code, phys, index, p)
             + EntryChange(code, MemFlows(phys, index, p), FlowOn(phys[a], p), index[a], to)
  {
    MemFlowsMove(phys, index, a, to, p);
    hide MemFlows, Code.PLogP, Sum;
    SumTwo(Logs(code, MemFlows(phys, index, p)), Logs(code, MemFlows(phys, index[a := to], p)), index[a], to);
  }

  lemma {:induction false} MixedLogsStep(code: Code, phys: seq<seq<PhysData>>, index: seq<nat>, a: nat, to: nat,
                                         k: nat, numPhysicalNodes: nat)
    requires |phys| == |index| && a < |index| && index[a] < |index| && to < |index| && index[a] != to
    requires PhysicalNodesOk(phys[a], numPhysicalNodes) && k <= |phys[a]|
    ensures Sum(MixedLogs(code, phys, index, index[a := to], phys[a][..k], numPhysicalNodes))
         == NodeFlowLog(code, phys, index, numPhysicalNodes) + TrueChange(code, phys, index, index[a], to, phys[a][..k])
  {
    hide PhysLog, MemFlows, EntryChange, Carries, Sum, FlowOn;
    var mixed := MixedLogs(code, phys, index, index[a := to], phys[a][..k], numPhysicalNodes);
    if k == 0 {
      NothingCarried();
      assert mixed == PhysLogs(code, phys, index, numPhysicalNodes);
    } else {
      var e := phys[a][k - 1];
      var before := MixedLogs(code, phys, index, index[a := to], phys[a][..k - 1], numPhysicalNodes);
      MixedLogsStep(code, phys, index, a, to, k - 1, numPhysicalNodes);
      assert phys[a][..k][..k - 1] == phys[a][..k - 1] && phys[a][..k][k - 1] == e;
      CarriesMore(phys[a], k - 1);
      SumOne(before, mixed, e.physNodeIndex);
      FlowOnEntry(phys[a], k - 1);
      PhysLogMove(code, phys, index, a, to, e.physNodeIndex);
    }
  }

  lemma {:induction false} NothingCarried()
    ensures forall p: nat :: !Carries([], p)
  {
  }

  /** A move changes the codewords by the contribution of its deltas. */
  lemma {:induction false} NodeFlowLogMove(code: Code, phys: seq<seq<PhysData>>, index: seq<nat>, a: nat, to: nat,
                                           numPhysicalNodes: nat)
    requires |phys| == |index| && a < |index| && index[a] < |index| && to < |index| && index[a] != to
    requires PhysicalNodesOk(phys[a], numPhysicalNodes)
    ensures NodeFlowLog(code, phys, index[a := to], numPhysicalNodes)
         == NodeFlowLog(code, phys, index, numPhysicalNodes) + TrueChange(code, phys, index, index[a], to, phys[a])
  {
    hide MemFlows, TrueChange, Sum;
    var index' := index[a := to];
    MixedLogsStep(code, phys, index, a, to, |phys[a]|, numPhysicalNodes);
    assert phys[a][..|phys[a]|] == phys[a];
    var mixed, after := MixedLogs(code, phys, index, index', phys[a], numPhysicalNodes), PhysLogs(code, phys, index',
        numPhysicalNodes);
    forall p | 0 <= p < numPhysicalNodes ensures mixed[p] == after[p] {
      if !Carries(phys[a], p) {
        FlowOnAbsent(phys[a], p);
        MemFlowsMove(phys, index, a, to, p);
        var o, flows := index[a], MemFlows(phys, index, p);
        assert flows[o := flows[o] - 0.0][to := flows[to] + 0.0] == flows;
      }
    }
    assert mixed == after;
  }

  /** The carrier's own module has a carrier of everything it carries. */
  lemma {:induction false} OwnModuleCarries(phys: seq<seq<PhysData>>, index: seq<nat>, a: nat)
    requires |phys| == |index| && a < |index| && index[a] < |index|
    ensures forall k :: 0 <= k < |phys[a]| ==> MemCounts(phys, index, phys[a][k].physNodeIndex)[index[a]] > 0
  {
    forall k | 0 <= k < |phys[a]| ensures MemCounts(phys, index, phys[a][k].physNodeIndex)[index[a]] > 0 {
      var p := phys[a][k].physNodeIndex;
      assert Carries(phys[a], p);
      CountZero(Carriers(phys, index, p), index[a]);
      assert Carriers(phys, index, p)[a] == index[a];
    }
  }

  // ----- The table of deltas with memory contributions -----

  function PartAt(table: map<nat, MemDeltaFlow>, m: nat): MemPart
  {
    if m in table then table[m].mem else NO_MEMORY
  }

  /** Adding to the table accumulates; a module without links is added with zero link flow. */
  function AddPart(table: map<nat, MemDeltaFlow>, m: nat, part: MemPart): map<nat, MemDeltaFlow>
  {
    if m in table then table[m := table[m].(mem := table[m].mem.Plus(part))]
    else table[m := MemDeltaFlow(DeltaFlow(m, 0.0, 0.0), part)]
  }

  function WithoutMemory(links: map<nat, DeltaFlow>): (r: map<nat, MemDeltaFlow>)
    ensures r.Keys == links.Keys && forall m :: m in r ==> r[m] == MemDeltaFlow(links[m], NO_MEMORY)
  {
    map m | m in links :: MemDeltaFlow(links[m], NO_MEMORY)
  }

  /** Module m has a carrier of one of the listed physical nodes. */
  ghost predicate Shares(phys: seq<seq<PhysData>>, index: seq<nat>, carried: seq<PhysData>, m: nat)
    requires |phys| == |index| && m < |index|
  {
    exists k :: 0 <= k < |carried| && MemCounts(phys, index, carried[k].physNodeIndex)[m] > 0
  }

  lemma {:induction false} SharesMore(phys: seq<seq<PhysData>>, index: seq<nat>, carried: seq<PhysData>, k: nat, m: nat)
    requires |phys| == |index| && m < |index| && k < |carried|
    ensures Shares(phys, index, carried[..k + 1], m)
       <==> Shares(phys, index, carried[..k], m) || MemCounts(phys, index, carried[k].physNodeIndex)[m] > 0
  {
    hide MemCounts;
    if Shares(phys, index, carried[..k], m) {
      var i :| 0 <= i < k && MemCounts(phys, index, carried[..k][i].physNodeIndex)[m] > 0;
      assert carried[..k + 1][i] == carried[..k][i];
    }
    assert carried[..k + 1][k] == carried[k];
  }

  /** The table has the link flows it started with, every module that shares a listed physical node and,
      for every module, the contribution of these physical nodes. */
  ghost predicate MemTable(table: map<nat, MemDeltaFlow>, links: map<nat, DeltaFlow>, code: Code,
                           phys: seq<seq<PhysData>>,
                           index: seq<nat>, oldM: nat, carried: seq<PhysData>)
    requires |phys| == |index|
  {
    && links.Keys <= table.Keys
    && (forall m :: m in table ==> m < |index| && table[m].flow == DeltaAt(links, m))
    && (forall m :: 0 <= m < |index| ==> PartAt(table, m) == PartOf(code, phys, index, oldM, carried, m))
    && (forall m: nat :: m < |index| ==> (m in table <==> m in links || Shares(phys, index, carried, m)))
  }

  /** The same in the middle of a row: of physical node e, only the modules before entry j. */
  ghost predicate MemTableInRow(table: map<nat, MemDeltaFlow>, links: map<nat, DeltaFlow>, code: Code,
                                phys: seq<seq<PhysData>>,
                                index: seq<nat>, oldM: nat, carried: seq<PhysData>, e: PhysData,
                                row: seq<ModuleMemNodes>, j: nat)
    requires |phys| == |index| && j <= |row|
  {
    && links.Keys <= table.Keys
    && (forall m :: m in table ==> m < |index| && table[m].flow == DeltaAt(links, m))
    && (forall m :: 0 <= m < |index| ==>
          PartAt(table, m) == PartOf(code, phys, index, oldM, carried, m).Plus(
            if HasModule(row[..j], m) then EntryPart(code, MemFlows(phys, index, e.physNodeIndex)[m], e.sumFlow,
                m == oldM)
            else NO_MEMORY))
    && (forall m: nat :: m < |index| ==>
          (m in table <==> m in links || Shares(phys, index, carried, m) || HasModule(row[..j], m)))
  }

  lemma {:induction false} MemTableStart(links: map<nat, DeltaFlow>, code: Code, phys: seq<seq<PhysData>>,
                                         index: seq<nat>, oldM: nat)
    requires |phys| == |index| && forall m :: m in links ==> m < |index| && links[m].moduleId == m
    ensures MemTable(WithoutMemory(links), links, code, phys, index, oldM, [])
  {
  }

  lemma {:induction false} MemTableRowStart(table: map<nat, MemDeltaFlow>, links: map<nat, DeltaFlow>, code: Code,
                                            phys: seq<seq<PhysData>>, index: seq<nat>, oldM: nat,
                                                carried: seq<PhysData>,
                                            e: PhysData, row: seq<ModuleMemNodes>)
    requires |phys| == |index| && MemTable(table, links, code, phys, index, oldM, carried)
    ensures MemTableInRow(table, links, code, phys, index, oldM, carried, e, row, 0)
  {
    hide PartOf, EntryPart, MemFlows;
  }

  lemma {:induction false} MemTableRowStep(table: map<nat, MemDeltaFlow>, links: map<nat, DeltaFlow>, code: Code,
                                           phys: seq<seq<PhysData>>, index: seq<nat>, oldM: nat, carried: seq<PhysData>,
                                           e: PhysData, row: seq<ModuleMemNodes>, j: nat)
    requires |phys| == |index| && j < |row|
    requires RowIs(row, MemCounts(phys, index, e.physNodeIndex), MemFlows(phys, index, e.physNodeIndex))
    requires MemTableInRow(table, links, code, phys, index, oldM, carried, e, row, j)
    ensures MemTableInRow(AddPart(table, row[j].moduleId,
              EntryPart(code, row[j].sumFlow, e.sumFlow, row[j].moduleId == oldM)),
                          links, code, phys, index, oldM, carried, e, row, j + 1)
  {
    hide PartOf, EntryPart, MemFlows, MemCounts, AddPart, PartAt, HasModule, MemPart.Plus, RowIs, Shares;
    var p, at := e.physNodeIndex, row[j].moduleId;
    RowEntry(row, MemCounts(phys, index, p), MemFlows(phys, index, p), j);
    HasModuleMore(row, j);
    var part := EntryPart(code, row[j].sumFlow, e.sumFlow, at == oldM);
    AddPartAt(table, at, part);
    NothingAdded(PartOf(code, phys, index, oldM, carried, at), part);
  }

  lemma {:induction false} RowEntry(row: seq<ModuleMemNodes>, counts: seq<nat>, flows: seq<real>, j: nat)
    requires RowIs(row, counts, flows) && j < |row|
    ensures RowSorted(row) && row[j].moduleId < |counts| == |flows| && row[j].sumFlow == flows[row[j].moduleId]
  {
    assert EntryIs(row[j], counts, flows);
  }

  lemma {:induction false} AddPartAt(table: map<nat, MemDeltaFlow>, at: nat, part: MemPart)
    ensures var table' := AddPart(table, at, part);
            && table'.Keys == table.Keys + {at}
            && (forall m: nat :: PartAt(table', m) == if m == at then PartAt(table, m).Plus(part) else PartAt(table, m))
            && (forall m :: m in table' ==>
               table'[m].flow == if m in table then table[m].flow else DeltaFlow(m, 0.0, 0.0))
  {
  }

  lemma {:induction false} NothingAdded(part: MemPart, other: MemPart)
    ensures part.Plus(NO_MEMORY) == part && part.Plus(NO_MEMORY).Plus(other) == part.Plus(other)
  {
  }

  lemma {:induction false} MemTableRowEnd(table: map<nat, MemDeltaFlow>, links: map<nat, DeltaFlow>, code: Code,
                                          phys: seq<seq<PhysData>>, index: seq<nat>, oldM: nat, carried: seq<PhysData>,
                                              k: nat,
                                          row: seq<ModuleMemNodes>)
    requires |phys| == |index| && k < |carried|
    requires var p := carried[k].physNodeIndex; RowIs(row, MemCounts(phys, index, p), MemFlows(phys, index, p))
    requires MemTableInRow(table, links, code, phys, index, oldM, carried[..k], carried[k], row, |row|)
    ensures MemTable(table, links, code, phys, index, oldM, carried[..k + 1])
  {
    hide EntryPart, MemFlows, MemCounts;
    var p := carried[k].physNodeIndex;
    assert row[..|row|] == row && carried[..k + 1][..k] == carried[..k];
    forall m | 0 <= m < |index| ensures HasModule(row, m) <==> MemCounts(phys, index, p)[m] > 0 {
      if HasModule(row, m) {
        var j :| 0 <= j < |row| && row[j].moduleId == m;
        assert EntryIs(row[j], MemCounts(phys, index, p), MemFlows(phys, index, p));
      }
    }
    forall m: nat | m < |index| && Shares(phys, index, carried[..k + 1], m) ensures m in table {
      SharesMore(phys, index, carried, k, m);
    }
  }

  // ----- Moving the carried physical nodes, one row after the other -----

  /** The rows of the listed physical nodes are those of the new partition. */
  ghost predicate IndexPart(rows: seq<seq<ModuleMemNodes>>, phys: seq<seq<PhysData>>, index: seq<nat>, index': seq<nat>,
                            carried: seq<PhysData>)
    requires |phys| == |index| == |index'|
  {
    forall p :: 0 <= p < |rows| ==>
      var i := if Carries(carried, p) then index' else index;
      RowIs(rows[p], MemCounts(phys, i, p), MemFlows(phys, i, p))
  }

  lemma {:induction false} IndexPartStart(rows: seq<seq<ModuleMemNodes>>, phys: seq<seq<PhysData>>, index: seq<nat>,
                                          index': seq<nat>)
    requires |phys| == |index| == |index'| && IndexIs(rows, phys, index)
    ensures IndexPart(rows, phys, index, index', [])
  {
    hide RowIs;
  }

  lemma {:induction false} IndexPartRow(rows: seq<seq<ModuleMemNodes>>, phys: seq<seq<PhysData>>, index: seq<nat>,
                                        index': seq<nat>,
                                        carried: seq<PhysData>, k: nat)
    requires |phys| == |index| == |index'| && PhysicalNodesOk(carried, |rows|) && k < |carried|
    requires IndexPart(rows, phys, index, index', carried[..k])
    ensures var p := carried[k].physNodeIndex;
            p < |rows| && RowIs(rows[p], MemCounts(phys, index, p), MemFlows(phys, index, p))
  {
    hide RowIs, Carries;
    CarriesMore(carried, k);
  }

  lemma {:induction false} IndexPartStep(rows: seq<seq<ModuleMemNodes>>, phys: seq<seq<PhysData>>, index: seq<nat>,
                                         index': seq<nat>,
                                         carried: seq<PhysData>, k: nat, row: seq<ModuleMemNodes>)
    requires |phys| == |index| == |index'| && PhysicalNodesOk(carried, |rows|) && k < |carried|
    requires IndexPart(rows, phys, index, index', carried[..k])
    requires var p := carried[k].physNodeIndex; RowIs(row, MemCounts(phys, index', p), MemFlows(phys, index', p))
    ensures carried[k].physNodeIndex < |rows|
    ensures IndexPart(rows[carried[k].physNodeIndex := row], phys, index, index', carried[..k + 1])
  {
    hide RowIs, Carries;
    CarriesMore(carried, k);
  }

  lemma {:induction false} IndexPartEnd(rows: seq<seq<ModuleMemNodes>>, phys: seq<seq<PhysData>>, index: seq<nat>,
                                        a: nat, to: nat)
    requires |phys| == |index| && a < |index| && index[a] < |index| && to < |index| && index[a] != to
    requires IndexPart(rows, phys, index, index[a := to], phys[a])
    ensures IndexIs(rows, phys, index[a := to])
  {
    hide RowIs, Carries;
    forall p | 0 <= p < |rows| ensures RowIs(rows[p], MemCounts(phys, index[a := to], p),
        MemFlows(phys, index[a := to], p)) {
      if !Carries(phys[a], p) { RowKept(rows[p], phys, index, a, to, p); }
    }
  }

  // ----- The objective -----

  class MemMapEquation {
    const base: MapEquation
    const numPhysicalNodes: nat

    var physToModuleToMemNodes: seq<seq<ModuleMemNodes>>
    var memoryContributionsAdded: bool

    constructor (base: MapEquation, numPhysicalNodes: nat)
      ensures this.base == base && this.numPhysicalNodes == numPhysicalNodes
      ensures physToModuleToMemNodes == [] && !memoryContributionsAdded
    {
      this.base, this.numPhysicalNodes := base, numPhysicalNodes;
      physToModuleToMemNodes, memoryContributionsAdded := [], false;
    }

    ghost predicate IndexTracks(phys: seq<seq<PhysData>>, index: seq<nat>)
      reads this
    {
      && |phys| == |index| && MemoryOk(phys, numPhysicalNodes)
      && |physToModuleToMemNodes| == numPhysicalNodes && IndexIs(physToModuleToMemNodes, phys, index)
    }

    /** Every term is the from-scratch value, with the codewords of the current partition. */
    ghost predicate Tracks(modules: seq<FlowData>, phys: seq<seq<PhysData>>, index: seq<nat>)
      reads this, base
    {
      && base.Tracks(modules) && IndexTracks(phys, index)
      && base.nodeFlowLogNodeFlow == NodeFlowLog(base.code, phys, index, numPhysicalNodes)
    }

    method InitPartition(nodes: seq<FlowData>, phys: seq<seq<PhysData>>)
      requires MemoryOk(phys, numPhysicalNodes) && |phys| == |nodes|
      requires base.exitNetworkFlowLog == base.code.PLogP(base.exitNetworkFlow) && base.code.PLogP(0.0) == 0.0
      modifies this, base
      ensures Tracks(nodes, phys, Identity(|nodes|)) && !memoryContributionsAdded
      ensures base.exitNetworkFlow == old(base.exitNetworkFlow)
    {
      hide IndexIs, NodeFlowLog, MapEquation.Tracks, MemoryOk;
      InitPartitionOfPhysicalNodes(phys);
      CalculateNodeFlowLogNodeFlow(phys, Identity(|nodes|));
      base.CalculateCodelength(nodes);
    }

    /** One entry per node and physical node. The nodes are listed in the order of their modules,
        so every row is sorted already. */
    method InitPartitionOfPhysicalNodes(phys: seq<seq<PhysData>>)
      requires MemoryOk(phys, numPhysicalNodes)
      modifies `physToModuleToMemNodes, `memoryContributionsAdded
      ensures IndexTracks(phys, Identity(|phys|)) && !memoryContributionsAdded
    {
      hide IndexIs, IndexIsSingle;
      PartlyNone(phys, numPhysicalNodes);
      physToModuleToMemNodes := seq(numPhysicalNodes, (p: nat) => []);
      for i := 0 to |phys|
        invariant |physToModuleToMemNodes| == numPhysicalNodes
        invariant IndexIsSingle(physToModuleToMemNodes, Partly(phys, i, 0))
      {
        for k := 0 to |phys[i]|
          invariant |physToModuleToMemNodes| == numPhysicalNodes
          invariant IndexIsSingle(physToModuleToMemNodes, Partly(phys, i, k))
        {
          var e := phys[i][k];
          PartlyStep(physToModuleToMemNodes, phys, i, k);
          physToModuleToMemNodes := physToModuleToMemNodes[e.physNodeIndex :=
            physToModuleToMemNodes[e.physNodeIndex] + [ModuleMemNodes(i, 1, e.sumFlow)]];
        }
        PartlyNext(phys, i);
      }
      assert Partly(phys, |phys|, 0) == phys;
      SingleIs(physToModuleToMemNodes, phys);
      memoryContributionsAdded := false;
    }

    method CalculateNodeFlowLogNodeFlow(ghost phys: seq<seq<PhysData>>, ghost index: seq<nat>)
      requires IndexTracks(phys, index) && base.code.PLogP(0.0) == 0.0
      modifies base`nodeFlowLogNodeFlow
      ensures base.nodeFlowLogNodeFlow == NodeFlowLog(base.code, phys, index, numPhysicalNodes)
    {
      hide Code.PLogP, PhysLog, MemoryOk, RowIs, Sum;
      base.nodeFlowLogNodeFlow := 0.0;
      ghost var logs := PhysLogs(base.code, phys, index, numPhysicalNodes);
      SumNone();
      assert logs[..0] == [];
      for p := 0 to numPhysicalNodes
        invariant base.nodeFlowLogNodeFlow == Sum(logs[..p])
      {
        var row := physToModuleToMemNodes[p];
        ghost var start, rowLogs := base.nodeFlowLogNodeFlow, EntryLogs(base.code, row);
        assert rowLogs[..0] == [];
        for k := 0 to |row|
          invariant base.nodeFlowLogNodeFlow == start + Sum(rowLogs[..k])
        {
          base.nodeFlowLogNodeFlow := base.nodeFlowLogNodeFlow + base.code.PLogP(row[k].sumFlow);
          assert rowLogs[..k + 1] == rowLogs[..k] + [rowLogs[k]];
          SumAppend(rowLogs[..k], rowLogs[k]);
        }
        assert rowLogs[..|row|] == rowLogs;
        RowLogs(base.code, row, phys, index, p);
        assert logs[..p + 1] == logs[..p] + [logs[p]];
        SumAppend(logs[..p], logs[p]);
      }
      assert logs[..numPhysicalNodes] == logs;
    }

    /** Add the contribution of the node's physical nodes to the delta of its own module and of
        every module that has one of them. */
    method AddMemoryContributions(carried: seq<PhysData>, oldM: nat, table: map<nat, MemDeltaFlow>,
                                  ghost links: map<nat, DeltaFlow>,
                                  ghost phys: seq<seq<PhysData>>, ghost index: seq<nat>)
      returns (moduleDeltaFlow: map<nat, MemDeltaFlow>)
      requires IndexTracks(phys, index) && PhysicalNodesOk(carried, numPhysicalNodes)
      requires MemTable(table, links, base.code, phys, index, oldM, [])
      modifies `memoryContributionsAdded
      ensures memoryContributionsAdded
      ensures MemTable(moduleDeltaFlow, links, base.code, phys, index, oldM, carried)
    {
      hide MemTable, MemTableInRow, RowIs, MemoryOk;
      moduleDeltaFlow := table;
      assert carried[..0] == [];
      for i := 0 to |carried|
        invariant MemTable(moduleDeltaFlow, links, base.code, phys, index, oldM, carried[..i])
      {
        var physData := carried[i];
        var physFlow := physData.sumFlow;
        var plogpPhysFlow := base.code.PLogP(physFlow);
        var row := physToModuleToMemNodes[physData.physNodeIndex];
        MemTableRowStart(moduleDeltaFlow, links, base.code, phys, index, oldM, carried[..i], physData, row);
        for j := 0 to |row|
          invariant MemTableInRow(moduleDeltaFlow, links, base.code, phys, index, oldM, carried[..i], physData, row, j)
        {
          MemTableRowStep(moduleDeltaFlow, links, base.code, phys, index, oldM, carried[..i], physData, row, j);
          var moduleIndex, oldPhysFlow := row[j].moduleId, row[j].sumFlow;
          if moduleIndex == oldM {
            // From where the multiple assigned node is moved
            var newPhysFlow := oldPhysFlow - physFlow;
            moduleDeltaFlow := AddPart(moduleDeltaFlow, moduleIndex,
                                       MemPart(base.code.PLogP(newPhysFlow) - base.code.PLogP(oldPhysFlow),
                                           plogpPhysFlow));
          } else {
            // To where the multiple assigned node is moved
            var newPhysFlow := oldPhysFlow + physFlow;
            moduleDeltaFlow := AddPart(moduleDeltaFlow, moduleIndex,
                                       MemPart(base.code.PLogP(newPhysFlow) - base.code.PLogP(oldPhysFlow),
                                           plogpPhysFlow));
          }
        }
        MemTableRowEnd(moduleDeltaFlow, links, base.code, phys, index, oldM, carried, i, row);
      }
      assert carried[..|carried|] == carried;
      memoryContributionsAdded := true;
    }

    // ----- Predicted change -----

    function GetDeltaCodelengthOnMovingNode(current: FlowData, oldDelta: MemDeltaFlow, newDelta: MemDeltaFlow,
                                            modules: seq<FlowData>): real
      requires MoveOk(modules, oldDelta.flow, newDelta.flow)
      reads this, base
    {
      base.GetDeltaCodelengthOnMovingNode(current, oldDelta.flow, newDelta.flow, modules)
      - Contribution(oldDelta.mem, newDelta.mem)
    }

    function GetDeltaCodelengthOnMovingNodeHoisted(oldDelta: MemDeltaFlow, oldSide: OldSideTerms,
                                                   newDelta: MemDeltaFlow,
                                                   modules: seq<FlowData>): real
      requires newDelta.flow.moduleId < |modules|
      reads this, base
    {
      base.GetDeltaCodelengthOnMovingNodeHoisted(oldSide, newDelta.flow, modules) - Contribution(oldDelta.mem,
          newDelta.mem)
    }

    // ----- Moving a node -----

    /** Move the node's physical nodes between two modules. The old module is always found. */
    method UpdatePhysicalNodes(carried: seq<PhysData>, oldM: nat, newM: nat,
                               ghost phys: seq<seq<PhysData>>, ghost index: seq<nat>, ghost a: nat)
      requires IndexTracks(phys, index)
      requires a < |index| && index[a] < |index| && newM < |index| && oldM == index[a] != newM && carried == phys[a]
      modifies `physToModuleToMemNodes
      ensures IndexTracks(phys, index[a := newM])
    {
      hide RowIs, IndexIs, IndexPart, RowBetween, Removed, Inserted;
      ghost var index' := index[a := newM];
      IndexPartStart(physToModuleToMemNodes, phys, index, index');
      assert carried[..0] == [] && PhysicalNodesOk(phys[a], numPhysicalNodes);
      for k := 0 to |carried|
        invariant |physToModuleToMemNodes| == numPhysicalNodes
        invariant IndexPart(physToModuleToMemNodes, phys, index, index', carried[..k])
      {
        IndexPartRow(physToModuleToMemNodes, phys, index, index', carried, k);
        var physData := carried[k];
        var row := physToModuleToMemNodes[physData.physNodeIndex];

        // Remove contribution to old module
        ghost var p := physData.physNodeIndex;
        RowParts(row, MemCounts(phys, index, p), MemFlows(phys, index, p));
        var at := FindModuleMemNodes(row, oldM);
        RowLeft(row, phys, index, a, k, at);
        row := Removed(row, at, physData.sumFlow);

        // Add contribution to new module
        RowBetweenSorted(row, phys, index, a, physData);
        at := FindModuleMemNodes(row, newM);
        RowJoined(row, phys, index, a, newM, k, numPhysicalNodes, at);
        row := Inserted(row, at, newM, physData.sumFlow);

        IndexPartStep(physToModuleToMemNodes, phys, index, index', carried, k, row);
        physToModuleToMemNodes := physToModuleToMemNodes[physData.physNodeIndex := row];
      }
      assert carried[..|carried|] == carried;
      IndexPartEnd(physToModuleToMemNodes, phys, index, a, newM);
    }

    /** The same, for deltas that do not carry the contributions yet. */
    method AddMemoryContributionsAndUpdatePhysicalNodes(carried: seq<PhysData>, oldDelta: MemDeltaFlow,
                                                        newDelta: MemDeltaFlow,
                                                        ghost phys: seq<seq<PhysData>>, ghost index: seq<nat>,
                                                            ghost a: nat)
      returns (oldDelta': MemDeltaFlow, newDelta': MemDeltaFlow)
      requires IndexTracks(phys, index) && base.code.PLogP(0.0) == 0.0
      requires a < |index| && index[a] < |index| && newDelta.flow.moduleId < |index|
      requires oldDelta.flow.moduleId == index[a] != newDelta.flow.moduleId && carried == phys[a]
      modifies `physToModuleToMemNodes
      ensures IndexTracks(phys, index[a := newDelta.flow.moduleId])
      ensures oldDelta'.flow == oldDelta.flow && newDelta'.flow == newDelta.flow
      ensures oldDelta'.mem == oldDelta.mem.Plus(PartOnMove(base.code, phys, index, index[a], carried, index[a]))
      ensures newDelta'.mem == newDelta.mem.Plus(PartOnMove(base.code, phys, index, index[a], carried,
                newDelta.flow.moduleId))
    {
      hide RowIs, IndexIs, IndexPart, RowBetween, Removed, Inserted, MemCounts, MemFlows, MemPart.Plus, EntryPart,
           Code.PLogP;
      var oldM, newM := oldDelta.flow.moduleId, newDelta.flow.moduleId;
      ghost var index' := index[a := newM];
      oldDelta', newDelta' := oldDelta, newDelta;
      IndexPartStart(physToModuleToMemNodes, phys, index, index');
      assert carried[..0] == [] && PhysicalNodesOk(phys[a], numPhysicalNodes);
      NothingYet(oldDelta.mem);
      NothingYet(newDelta.mem);
      for k := 0 to |carried|
        invariant |physToModuleToMemNodes| == numPhysicalNodes
        invariant IndexPart(physToModuleToMemNodes, phys, index, index', carried[..k])
        invariant oldDelta'.flow == oldDelta.flow && newDelta'.flow == newDelta.flow
        invariant oldDelta'.mem == oldDelta.mem.Plus(PartOnMove(base.code, phys, index, index[a], carried[..k], oldM))
        invariant newDelta'.mem == newDelta.mem.Plus(PartOnMove(base.code, phys, index, index[a], carried[..k], newM))
      {
        IndexPartRow(physToModuleToMemNodes, phys, index, index', carried, k);
        var physData := carried[k];
        var row := physToModuleToMemNodes[physData.physNodeIndex];
        ghost var p := physData.physNodeIndex;
        PartOnMoveStep(base.code, phys, index, index[a], carried, k, oldM, oldDelta.mem);
        PartOnMoveStep(base.code, phys, index, index[a], carried, k, newM, newDelta.mem);

        // Remove contribution to old module
        RowParts(row, MemCounts(phys, index, p), MemFlows(phys, index, p));
        var at := FindModuleMemNodes(row, oldM);
        RowLeft(row, phys, index, a, k, at);
        var oldPhysFlow := row[at].sumFlow;
        var part := EntryPart(base.code, oldPhysFlow, physData.sumFlow, true);
        oldDelta' := oldDelta'.(mem := oldDelta'.mem.Plus(part));
        row := Removed(row, at, physData.sumFlow);

        // Add contribution to new module
        RowBetweenSorted(row, phys, index, a, physData);
        at := FindModuleMemNodes(row, newM);
        RowJoined(row, phys, index, a, newM, k, numPhysicalNodes, at);
        if at == |row| || row[at].moduleId != newM {
          NoCarriersNoFlow(phys, index, p, newM);
          oldPhysFlow := 0.0;
        } else {
          oldPhysFlow := row[at].sumFlow;
        }
        part := EntryPart(base.code, oldPhysFlow, physData.sumFlow, false);
        newDelta' := newDelta'.(mem := newDelta'.mem.Plus(part));
        row := Inserted(row, at, newM, physData.sumFlow);

        IndexPartStep(physToModuleToMemNodes, phys, index, index', carried, k, row);
        physToModuleToMemNodes := physToModuleToMemNodes[physData.physNodeIndex := row];
      }
      assert carried[..|carried|] == carried;
      IndexPartEnd(physToModuleToMemNodes, phys, index, a, newM);
    }

    /** The contribution the update uses: what the deltas carry if the flag says they carry it,
        and what is computed on the way otherwise. */
    ghost function UsedContribution(oldDelta: MemDeltaFlow, newDelta: MemDeltaFlow, phys: seq<seq<PhysData>>,
                                    index: seq<nat>, a: nat): real
      requires |phys| == |index| && a < |index| && index[a] < |index| && newDelta.flow.moduleId < |index|
      reads this, base
    {
      if memoryContributionsAdded then Contribution(oldDelta.mem, newDelta.mem)
      else
        Contribution(oldDelta.mem.Plus(PartOnMove(base.code, phys, index, index[a], phys[a], index[a])),
                     newDelta.mem.Plus(PartOnMove(base.code, phys, index, index[a], phys[a], newDelta.flow.moduleId)))
    }

    /** The move. Index and module terms are always exact afterwards; the codewords are exactly if
        the contribution used is the true change. */
    method UpdateCodelengthOnMovingNode(current: FlowData, carried: seq<PhysData>, oldDelta: MemDeltaFlow,
                                        newDelta: MemDeltaFlow,
                                        modules: seq<FlowData>,
                                        ghost phys: seq<seq<PhysData>>, ghost index: seq<nat>, ghost a: nat)
      returns (moduleFlowData: seq<FlowData>)
      requires Tracks(modules, phys, index) && base.code.PLogP(0.0) == 0.0 && |modules| == |index|
      requires a < |index| && index[a] < |index| && carried == phys[a]
      requires MoveOk(modules, oldDelta.flow, newDelta.flow) && oldDelta.flow.moduleId == index[a]
      modifies this, base
      ensures moduleFlowData == Moved(modules, current, oldDelta.flow, newDelta.flow)
      ensures base.Tracks(moduleFlowData) && IndexTracks(phys, index[a := newDelta.flow.moduleId])
      ensures Tracks(moduleFlowData, phys, index[a := newDelta.flow.moduleId])
         <==> old(UsedContribution(oldDelta, newDelta, phys, index, a))
              == TrueChange(base.code, phys, index, index[a], newDelta.flow.moduleId, phys[a])
      ensures base.codelength == old(base.codelength
                + base.GetDeltaCodelengthOnMovingNode(current, oldDelta.flow, newDelta.flow, modules)
                                     - UsedContribution(oldDelta, newDelta, phys, index, a))
      ensures !memoryContributionsAdded && base.exitNetworkFlow == old(base.exitNetworkFlow)
    {
      hide MapEquation.GetDeltaCodelengthOnMovingNode, NodeFlowLog, TrueChange, IndexIs, Contribution, PartOnMove,
           Moved, Code.PLogP, TermSum;
      assert PhysicalNodesOk(phys[a], numPhysicalNodes);
      NodeFlowLogMove(base.code, phys, index, a, newDelta.flow.moduleId, numPhysicalNodes);
      moduleFlowData := base.UpdateCodelengthOnMovingNode(current, oldDelta.flow, newDelta.flow, modules);
      var oldDelta', newDelta' := oldDelta, newDelta;
      if memoryContributionsAdded {
        UpdatePhysicalNodes(carried, oldDelta.flow.moduleId, newDelta.flow.moduleId, phys, index, a);
      } else {
        oldDelta', newDelta' := AddMemoryContributionsAndUpdatePhysicalNodes(carried, oldDelta, newDelta, phys, index,
            a);
      }
      var delta := Contribution(oldDelta'.mem, newDelta'.mem);
      base.nodeFlowLogNodeFlow := base.nodeFlowLogNodeFlow + delta;
      base.moduleCodelength := base.moduleCodelength - delta;
      base.codelength := base.codelength - delta;
      memoryContributionsAdded := false;
    }
  }

  lemma {:induction false} SumNone()
    ensures Sum([]) == 0.0
  {
  }

  lemma {:induction false} NothingYet(part: MemPart)
    ensures part.Plus(NO_MEMORY) == part
  {
  }

  lemma {:induction false} PartOnMoveStep(code: Code, phys: seq<seq<PhysData>>, index: seq<nat>, oldM: nat,
                                          carried: seq<PhysData>,
                                          k: nat, m: nat, start: MemPart)
    requires |phys| == |index| && m < |index| && k < |carried|
    ensures start.Plus(PartOnMove(code, phys, index, oldM, carried[..k + 1], m))
         == start.Plus(PartOnMove(code, phys, index, oldM, carried[..k], m))
                 .Plus(EntryPart(code, MemFlows(phys, index, carried[k].physNodeIndex)[m], carried[k].sumFlow,
                     m == oldM))
  {
    hide EntryPart, MemFlows;
    assert carried[..k + 1][..k] == carried[..k];
  }

  lemma {:induction false} RowParts(row: seq<ModuleMemNodes>, counts: seq<nat>, flows: seq<real>)
    requires RowIs(row, counts, flows)
    ensures RowSorted(row)
  {
  }

  lemma {:induction false} RowBetweenSorted(row: seq<ModuleMemNodes>, phys: seq<seq<PhysData>>, index: seq<nat>,
                                            a: nat, entry: PhysData)
    requires |phys| == |index| && a < |index| && index[a] < |index|
    requires RowBetween(row, phys, index, a, entry)
    ensures RowSorted(row)
  {
  }

  /** With the contributions of the partition in its deltas, a prediction is the difference of two codelengths
      from scratch, each with the codewords of its own partition. */
  lemma {:induction false} MemoryDeltaIsExact(objective: MemMapEquation, current: FlowData, oldDelta: MemDeltaFlow,
                                              newDelta: MemDeltaFlow, modules: seq<FlowData>,
                                              phys: seq<seq<PhysData>>, index: seq<nat>, a: nat)
    requires objective.Tracks(modules, phys, index) && objective.base.code.PLogP(0.0) == 0.0 && |modules| == |index|
    requires MoveOk(modules, oldDelta.flow, newDelta.flow) && a < |index| && oldDelta.flow.moduleId == index[a]
    requires oldDelta.mem == PartOf(objective.base.code, phys, index, index[a], phys[a], index[a])
    requires newDelta.mem == PartOf(objective.base.code, phys, index, index[a], phys[a], newDelta.flow.moduleId)
    ensures objective.GetDeltaCodelengthOnMovingNode(current, oldDelta, newDelta, modules)
         == Codelength(objective.base.code, objective.base.exitNetworkFlow,
                       NodeFlowLog(objective.base.code, phys, index[a := newDelta.flow.moduleId],
                                   objective.numPhysicalNodes),
                       Moved(modules, current, oldDelta.flow, newDelta.flow))
            - objective.base.codelength
  {
    hide NodeFlowLog, PartOf, TrueChange, Contribution, IndexIs, MapEquation.Tracks, Moved, IndexCodelength,
         MapEquation.GetDeltaCodelengthOnMovingNode;
    var code, oldM, newM := objective.base.code, index[a], newDelta.flow.moduleId;
    DeltaIsExact(objective.base, current, oldDelta.flow, newDelta.flow, modules);
    TrackedCodelength(objective.base, modules);
    assert PhysicalNodesOk(phys[a], objective.numPhysicalNodes);
    NodeFlowLogMove(code, phys, index, a, newM, objective.numPhysicalNodes);
    OwnModuleCarries(phys, index, a);
    RoutesAgree(code, phys, index, oldM, newM, phys[a]);
  }

  /** Hoisting the old side out of the candidate loop does not change the delta. */
  lemma {:induction false} HoistedMemoryIsUnhoisted(objective: MemMapEquation, current: FlowData,
                                                    oldDelta: MemDeltaFlow,
                                                    newDelta: MemDeltaFlow, modules: seq<FlowData>)
    requires MoveOk(modules, oldDelta.flow, newDelta.flow)
    ensures objective.GetDeltaCodelengthOnMovingNodeHoisted(
              oldDelta, objective.base.HoistOldSide(current, oldDelta.flow, modules), newDelta, modules)
         == objective.GetDeltaCodelengthOnMovingNode(current, oldDelta, newDelta, modules)
  {
    HoistedIsUnhoisted(objective.base, current, oldDelta.flow, newDelta.flow, modules);
  }
}
