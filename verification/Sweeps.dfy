/** What a sweep over the nodes of a network may do, on values: the choice of a module for one node, the visits of
    a serial sweep, the commit phase of a parallel one, and the core loop that repeats sweeps.

    The objective, the strength of a connection and the modules that a node is offered are functions here, so that
    every objective can say what they are. Given the choices of the nodes, everything else is determined. */
module Sweeps {
  import opened Sums
  import opened FlowNetwork
  import opened Partitions
  import opened LinkTables

  /** What the sweeps of one optimization see of the network and its objective. */
  datatype Terrain = Terrain(
    edges: seq<Edge>,
    threshold: real,
    objective: seq<nat> -> real,
    exit: (seq<nat>, nat, nat) -> real,
    offers: (ListState, nat, nat) -> bool,
    random: bool)

  /** Assignment, members and list of empty modules, and the nodes that are worth a visit. */
  datatype SweepState = SweepState(list: ListState, dirty: seq<bool>)
  {
    ghost predicate Ok()
    {
      list.Ok() && |dirty| == |list.index|
    }
  }

  /** Every node in a module of its own and worth a visit. */
  ghost function FreshState(n: nat): (r: SweepState)
    ensures r.Ok()
  {
    FreshList(n);
    SweepState(ListState(Identity(n), Ones(n), []), seq(n, (i: nat) => true))
  }

  lemma {:induction false} FreshList(n: nat)
    ensures ListState(Identity(n), Ones(n), []).Ok()
  {
    forall m: nat | m < n ensures Count(Identity(n), m) == 1 {
      CountDistinct(Identity(n), m);
    }
    NoZeros(Ones(n));
  }

  /** The same with the nodes moved to predefined modules. */
  ghost function StartState(modules: seq<nat>): (r: SweepState)
    requires forall i :: 0 <= i < |modules| ==> modules[i] < |modules|
    ensures r.Ok() && |r.dirty| == |modules|
  {
    var start := FreshState(|modules|);
    SweepState(ListAfter(start.list, modules, |modules|), start.dirty)
  }

  // ----- The choice of a module -----

  /** A node is offered all modules it has to be offered, and otherwise only random ones with members. */
  ghost predicate Offered(t: Terrain, list: ListState, a: nat, offered: set<nat>)
  {
    && (forall m: nat :: t.offers(list, a, m) ==> m in offered)
    && (forall m: nat :: m in offered ==> t.offers(list, a, m) || (t.random && m in list.index))
  }

  /** The objective with node a in module m. */
  ghost function ObjectiveWith(t: Terrain, index: seq<nat>, a: nat, m: nat): real
    requires a < |index|
  {
    t.objective(index[a := m])
  }

  /** No offered module is better than the greedy one by more than the threshold, and it improves on staying by more
      than the threshold unless it is staying. */
  ghost predicate Greedy(t: Terrain, index: seq<nat>, a: nat, offered: set<nat>, m: nat)
    requires a < |index|
  {
    && m in offered
    && (m != index[a] ==> ObjectiveWith(t, index, a, m) < t.objective(index) - t.threshold)
    && forall k: nat :: k in offered ==> ObjectiveWith(t, index, a, m) <= ObjectiveWith(t, index, a, k) + t.threshold
  }

  /** No offered module is connected more strongly, and staying is preferred among equals. */
  ghost predicate Strongest(t: Terrain, index: seq<nat>, a: nat, offered: set<nat>, m: nat)
    requires a < |index|
  {
    && m in offered && (m != index[a] ==> t.exit(index, a, index[a]) < t.exit(index, a, m))
    && forall k: nat :: k in offered ==> t.exit(index, a, k) <= t.exit(index, a, m)
  }

  /** The greedy module, unless the most strongly connected one is as good up to the threshold. */
  ghost function Preferred(t: Terrain, index: seq<nat>, a: nat, greedy: nat, strongest: nat): nat
    requires a < |index|
  {
    if ObjectiveWith(t, index, a, strongest) <= ObjectiveWith(t, index, a, greedy) + t.threshold then strongest
    else greedy
  }

  ghost predicate ChosenAmong(t: Terrain, index: seq<nat>, a: nat, offered: set<nat>, greedy: nat, strongest: nat,
                              to: nat)
    requires a < |index|
  {
    && Greedy(t, index, a, offered, greedy) && Strongest(t, index, a, offered, strongest)
    && to == Preferred(t, index, a, greedy, strongest)
  }

  /** A module that the search for the best move of node a may end with. */
  ghost predicate Chosen(t: Terrain, list: ListState, a: nat, to: nat)
    requires a < |list.index|
  {
    exists offered, greedy, strongest ::
      Offered(t, list, a, offered) && ChosenAmong(t, list.index, a, offered, greedy, strongest, to)
  }

  /** No module that the node has to be offered is better by more than twice the threshold, and the move costs no
      more than the threshold. */
  lemma {:induction false} ChosenNearBest(t: Terrain, list: ListState, a: nat, to: nat)
    requires a < |list.index| && Chosen(t, list, a, to) && t.threshold >= 0.0
    requires t.offers(list, a, list.index[a])
    ensures forall m: nat :: t.offers(list, a, m) ==>
              ObjectiveWith(t, list.index, a, to) <= ObjectiveWith(t, list.index, a, m) + 2.0 * t.threshold
    ensures ObjectiveWith(t, list.index, a, to) <= t.objective(list.index) + t.threshold
  {
    var offered, greedy, strongest :|
      Offered(t, list, a, offered) && ChosenAmong(t, list.index, a, offered, greedy, strongest, to);
    assert list.index[a := list.index[a]] == list.index;
    assert ObjectiveWith(t, list.index, a, list.index[a]) == t.objective(list.index);
  }

  function Marked(dirty: seq<bool>, nodes: seq<nat>): (r: seq<bool>)
    ensures |r| == |dirty|
  {
    seq(|dirty|, i requires 0 <= i < |dirty| => dirty[i] || i in nodes)
  }

  method MarkNeighboursDirty(edges: seq<Edge>, dirty: seq<bool>, a: nat) returns (marked: seq<bool>)
    requires EdgesOk(edges, |dirty|)
    ensures marked == Marked(dirty, Neighbours(edges, a))
  {
    hide Targets, Sources;
    marked := dirty;
    NoneMarked(edges, a, dirty);
    for k := 0 to |edges|
      invariant marked == Marked(dirty, Targets(edges[..k], a))
    {
      MarkedNext(edges, k, a, dirty);
      if edges[k].source == a {
        marked := marked[edges[k].target := true];
      }
    }
    assert edges[..|edges|] == edges;
    for k := 0 to |edges|
      invariant marked == Marked(dirty, Targets(edges, a) + Sources(edges[..k], a))
    {
      MarkedNext(edges, k, a, dirty);
      if edges[k].target == a {
        marked := marked[edges[k].source := true];
      }
    }
  }

  lemma {:induction false} NoneMarked(edges: seq<Edge>, a: nat, dirty: seq<bool>)
    ensures Marked(dirty, Targets(edges[..0], a)) == dirty
    ensures Targets(edges, a) + Sources(edges[..0], a) == Targets(edges, a)
  {
    assert edges[..0] == [];
  }

  lemma {:induction false} MarkedNext(edges: seq<Edge>, k: nat, a: nat, dirty: seq<bool>)
    requires EdgesOk(edges, |dirty|) && k < |edges|
    ensures Marked(dirty, Targets(edges[..k + 1], a))
         == if edges[k].source == a then Marked(dirty, Targets(edges[..k], a))[edges[k].target := true]
            else Marked(dirty, Targets(edges[..k], a))
    ensures Marked(dirty, Targets(edges, a) + Sources(edges[..k + 1], a))
         == if edges[k].target == a
            then Marked(dirty, Targets(edges, a) + Sources(edges[..k], a))[edges[k].source := true]
            else Marked(dirty, Targets(edges, a) + Sources(edges[..k], a))
  {
    assert edges[..k + 1][..k] == edges[..k];
  }

  // ----- One visit of a serial sweep -----

  /** A node that is not dirty is not visited, and in the first loop no node leaves a module that others have
      moved to. */
  ghost predicate Skipped(firstLoop: bool, s: SweepState, a: nat)
    requires s.Ok() && a < |s.dirty|
  {
    !s.dirty[a] || (firstLoop && Count(s.list.index, s.list.index[a]) > 1)
  }

  /** The node left alone in module m by the visited one, if exactly one link of the visited one leads there. */
  ghost predicate Drags(edges: seq<Edge>, index: seq<nat>, a: nat, m: nat)
  {
    |InModule(Neighbours(edges, a), index, m)| == 1 && Count(index, m) == 1
  }

  ghost function DraggedNode(edges: seq<Edge>, index: seq<nat>, a: nat, m: nat): (r: nat)
    requires Drags(edges, index, a, m)
    ensures r < |index| && index[r] == m
  {
    InModule(Neighbours(edges, a), index, m)[0]
  }

  /** Drag that node along, and mark its neighbours dirty if it has other links. */
  ghost function AfterDrag(edges: seq<Edge>, s: SweepState, a: nat, own: nat, to: nat): (r: SweepState)
    requires s.Ok() && to < |s.dirty|
    ensures r.Ok() && |r.dirty| == |s.dirty|
  {
    if Drags(edges, s.list.index, a, own) then
      var b := DraggedNode(edges, s.list.index, a, own);
      SweepState(ListMoved(s.list, b, to),
                 if |Neighbours(edges, b)| > 1 then Marked(s.dirty, Neighbours(edges, b)) else s.dirty)
    else s
  }

  /** The neighbours of a moved node become dirty; those of a dragged one do if it has other links. */
  ghost function AfterMove(t: Terrain, s: SweepState, a: nat, to: nat): (r: SweepState)
    requires s.Ok() && a < |s.dirty| && to < |s.dirty|
    ensures r.Ok() && |r.dirty| == |s.dirty|
  {
    AfterDrag(t.edges, SweepState(ListMoved(s.list, a, to), Marked(s.dirty, Neighbours(t.edges, a))), a,
              s.list.index[a], to)
  }

  datatype Visit = Visit(node: nat, to: nat)

  ghost predicate VisitOk(t: Terrain, firstLoop: bool, s: SweepState, v: Visit)
    requires s.Ok()
  {
    && v.node < |s.dirty| && v.to < |s.dirty|
    && if Skipped(firstLoop, s, v.node) then v.to == s.list.index[v.node] else Chosen(t, s.list, v.node, v.to)
  }

  ghost function AfterVisit(t: Terrain, firstLoop: bool, s: SweepState, v: Visit): (r: SweepState)
    requires s.Ok() && v.node < |s.dirty| && v.to < |s.dirty|
    ensures r.Ok() && |r.dirty| == |s.dirty|
  {
    if Skipped(firstLoop, s, v.node) then s
    else if v.to == s.list.index[v.node] then s.(dirty := s.dirty[v.node := false])
    else AfterMove(t, s, v.node, v.to)
  }

  ghost function MovedBy(t: Terrain, s: SweepState, v: Visit): nat
    requires s.Ok() && v.node < |s.dirty| && v.to < |s.dirty|
  {
    if v.to == s.list.index[v.node] then 0
    else if Drags(t.edges, ListMoved(s.list, v.node, v.to).index, v.node, s.list.index[v.node]) then 2 else 1
  }

  lemma {:induction false} StayedPut(t: Terrain, s: SweepState, v: Visit)
    requires s.Ok() && v.node < |s.dirty| && v.to < |s.dirty| && v.to == s.list.index[v.node]
    ensures MovedBy(t, s, v) == 0
  {
  }

  // ----- A serial sweep -----

  ghost predicate VisitsOk(t: Terrain, firstLoop: bool, s: SweepState, visits: seq<Visit>)
    requires s.Ok()
    decreases |visits|, 0
  {
    visits == []
    || (var n := |visits| - 1;
        VisitsOk(t, firstLoop, s, visits[..n])
        && VisitOk(t, firstLoop, AfterVisits(t, firstLoop, s, visits[..n]), visits[n]))
  }

  ghost function AfterVisits(t: Terrain, firstLoop: bool, s: SweepState, visits: seq<Visit>): (r: SweepState)
    requires s.Ok() && VisitsOk(t, firstLoop, s, visits)
    ensures r.Ok() && |r.dirty| == |s.dirty|
    decreases |visits|, 1
  {
    if visits == [] then s
    else
      var n := |visits| - 1;
      AfterVisit(t, firstLoop, AfterVisits(t, firstLoop, s, visits[..n]), visits[n])
  }

  ghost function MovedByAll(t: Terrain, firstLoop: bool, s: SweepState, visits: seq<Visit>): nat
    requires s.Ok() && VisitsOk(t, firstLoop, s, visits)
  {
    if visits == [] then 0
    else
      var n := |visits| - 1;
      MovedByAll(t, firstLoop, s, visits[..n])
      + MovedBy(t, AfterVisits(t, firstLoop, s, visits[..n]), visits[n])
  }

  /** Every node is visited once, in any order. */
  ghost predicate SweptSerially(t: Terrain, firstLoop: bool, s: SweepState, visits: seq<Visit>, s': SweepState,
                                numMoved: nat)
  {
    && s.Ok() && |visits| == |s.dirty| && VisitsOk(t, firstLoop, s, visits)
    && (forall i, j :: 0 <= i < j < |visits| ==> visits[i].node != visits[j].node)
    && s' == AfterVisits(t, firstLoop, s, visits) && numMoved == MovedByAll(t, firstLoop, s, visits)
  }

  lemma {:induction false} VisitsStart(t: Terrain, firstLoop: bool, s: SweepState)
    requires s.Ok()
    ensures VisitsOk(t, firstLoop, s, []) && AfterVisits(t, firstLoop, s, []) == s
    ensures MovedByAll(t, firstLoop, s, []) == 0
  {
  }

  lemma {:induction false} VisitsGrow(t: Terrain, firstLoop: bool, s: SweepState, visits: seq<Visit>, v: Visit)
    requires s.Ok() && VisitsOk(t, firstLoop, s, visits)
    requires VisitOk(t, firstLoop, AfterVisits(t, firstLoop, s, visits), v)
    ensures VisitsOk(t, firstLoop, s, visits + [v])
    ensures AfterVisits(t, firstLoop, s, visits + [v])
         == AfterVisit(t, firstLoop, AfterVisits(t, firstLoop, s, visits), v)
    ensures MovedByAll(t, firstLoop, s, visits + [v])
         == MovedByAll(t, firstLoop, s, visits) + MovedBy(t, AfterVisits(t, firstLoop, s, visits), v)
  {
    assert (visits + [v])[..|visits|] == visits;
  }

  ghost predicate NotVisited(visits: seq<Visit>, a: nat)
  {
    forall i :: 0 <= i < |visits| ==> visits[i].node != a
  }

  /** As long as nothing moves, only visited nodes stop being dirty. */
  lemma {:induction false} QuietVisits(t: Terrain, firstLoop: bool, s: SweepState, visits: seq<Visit>)
    requires s.Ok() && VisitsOk(t, firstLoop, s, visits) && MovedByAll(t, firstLoop, s, visits) == 0
    ensures AfterVisits(t, firstLoop, s, visits).list == s.list
    ensures forall a: nat :: a < |s.dirty| && NotVisited(visits, a) ==>
              AfterVisits(t, firstLoop, s, visits).dirty[a] == s.dirty[a]
  {
    hide AfterVisit, VisitOk, MovedBy, SweepState.Ok;
    if visits != [] {
      var n := |visits| - 1;
      QuietVisits(t, firstLoop, s, visits[..n]);
      var before := AfterVisits(t, firstLoop, s, visits[..n]);
      QuietStep(t, firstLoop, before, visits[n]);
      forall a: nat | a < |s.dirty| && NotVisited(visits, a)
        ensures AfterVisits(t, firstLoop, s, visits).dirty[a] == s.dirty[a]
      {
        assert visits[n].node != a;
        assert NotVisited(visits[..n], a);
      }
    }
  }

  lemma {:induction false} QuietStep(t: Terrain, firstLoop: bool, s: SweepState, v: Visit)
    requires s.Ok() && VisitOk(t, firstLoop, s, v) && MovedBy(t, s, v) == 0
    ensures AfterVisit(t, firstLoop, s, v).list == s.list && |AfterVisit(t, firstLoop, s, v).dirty| == |s.dirty|
    ensures forall a: nat :: a < |s.dirty| && a != v.node ==>
              AfterVisit(t, firstLoop, s, v).dirty[a] == s.dirty[a]
  {
    hide Chosen, ListMoved, Drags, Skipped;
  }

  /** A sweep without moves leaves every node that it visits in a module it chooses. */
  lemma {:induction false} QuietSweep(t: Terrain, firstLoop: bool, s: SweepState, visits: seq<Visit>, s': SweepState,
                                      i: nat)
    requires SweptSerially(t, firstLoop, s, visits, s', 0) && i < |visits|
    ensures s'.list == s.list && s.Ok() && visits[i].node < |s.dirty|
    ensures !Skipped(firstLoop, s, visits[i].node) ==>
              Chosen(t, s.list, visits[i].node, s.list.index[visits[i].node])
  {
    hide Chosen, ListMoved, Drags, Skipped, VisitOk, MovedBy, MovedByAll, AfterVisits, VisitsOk, SweepState.Ok;
    QuietVisits(t, firstLoop, s, visits);
    PrefixOk(t, firstLoop, s, visits, i + 1);
    var before := visits[..i];
    QuietVisits(t, firstLoop, s, before);
    assert NotVisited(before, visits[i].node);
    VisitedNode(t, firstLoop, AfterVisits(t, firstLoop, s, before), visits[i]);
    QuietVisit(t, firstLoop, s, AfterVisits(t, firstLoop, s, before), visits[i]);
  }

  lemma {:induction false} VisitedNode(t: Terrain, firstLoop: bool, s: SweepState, v: Visit)
    requires s.Ok() && VisitOk(t, firstLoop, s, v)
    ensures v.node < |s.dirty| && v.to < |s.dirty|
  {
  }

  lemma {:induction false} QuietVisit(t: Terrain, firstLoop: bool, s: SweepState, now: SweepState, v: Visit)
    requires s.Ok() && now.Ok() && now.list == s.list && |now.dirty| == |s.dirty|
    requires VisitOk(t, firstLoop, now, v) && MovedBy(t, now, v) == 0
    requires now.dirty[v.node] == s.dirty[v.node]
    ensures v.node < |s.dirty|
    ensures !Skipped(firstLoop, s, v.node) ==> Chosen(t, s.list, v.node, s.list.index[v.node])
  {
    hide Chosen, ListMoved, Drags;
    SameSkip(firstLoop, s, now, v.node);
  }

  lemma {:induction false} SameSkip(firstLoop: bool, s: SweepState, s': SweepState, a: nat)
    requires s.Ok() && s'.Ok() && s'.list == s.list && a < |s.dirty| && s'.dirty[a] == s.dirty[a]
    ensures Skipped(firstLoop, s, a) <==> Skipped(firstLoop, s', a)
  {
  }

  lemma {:induction false} PrefixOk(t: Terrain, firstLoop: bool, s: SweepState, visits: seq<Visit>, n: nat)
    requires s.Ok() && VisitsOk(t, firstLoop, s, visits) && n <= |visits|
    ensures VisitsOk(t, firstLoop, s, visits[..n])
    ensures MovedByAll(t, firstLoop, s, visits[..n]) <= MovedByAll(t, firstLoop, s, visits)
    ensures n > 0 ==>
              VisitsOk(t, firstLoop, s, visits[..n - 1])
              && VisitOk(t, firstLoop, AfterVisits(t, firstLoop, s, visits[..n - 1]), visits[n - 1])
              && MovedByAll(t, firstLoop, s, visits[..n])
                 == MovedByAll(t, firstLoop, s, visits[..n - 1])
                    + MovedBy(t, AfterVisits(t, firstLoop, s, visits[..n - 1]), visits[n - 1])
  {
    hide VisitOk, MovedBy, AfterVisits;
    if n == |visits| {
      assert visits[..n] == visits;
    } else {
      var m := |visits| - 1;
      PrefixOk(t, firstLoop, s, visits[..m], n);
      assert visits[..m][..n] == visits[..n];
      if n > 0 { assert visits[..m][..n - 1] == visits[..n - 1]; }
    }
  }

  // ----- The commit phase of a parallel sweep -----

  /** What the commit phase does with a proposal. */
  datatype Outcome = FastAccept | Accept | SkipChangedModule | SkipInvalidTarget | SkipRejected
  {
    predicate Accepted() { FastAccept? || Accept? }
  }

  datatype SweepCounts = SweepCounts(accepted: nat, fast: nat, changedModule: nat, invalidTarget: nat, rejected: nat)
  {
    function After(outcome: Outcome): SweepCounts
    {
      match outcome
      case FastAccept => this.(accepted := accepted + 1, fast := fast + 1)
      case Accept => this.(accepted := accepted + 1)
      case SkipChangedModule => this.(changedModule := changedModule + 1)
      case SkipInvalidTarget => this.(invalidTarget := invalidTarget + 1)
      case SkipRejected => this.(rejected := rejected + 1)
    }
  }

  const NO_COUNTS := SweepCounts(0, 0, 0, 0, 0)

  /** A committed move and the change of the objective it made. */
  datatype Commit = Commit(node: nat, from: nat, to: nat, fast: bool, gain: real)

  /** Assignment, modules touched by a commit, counters and commits while the proposals are gone through. */
  datatype CommitState = CommitState(index: seq<nat>, touched: set<nat>, counts: SweepCounts, log: seq<Commit>)

  /** A target that was empty has to be empty still, and is not for a node alone; another has to have members. */
  ghost predicate ValidTarget(snapshot: seq<nat>, index: seq<nat>, from: nat, to: nat)
  {
    if Count(snapshot, to) == 0 then Count(index, from) > 1 && Count(index, to) == 0 else Count(index, to) > 0
  }

  /** The outcome of the proposal to move node a: accepted if no earlier commit touched its modules, and otherwise
      exactly if its node and its target are still right and the objective falls by more than the threshold. */
  ghost function OutcomeOf(t: Terrain, snapshot: seq<nat>, c: CommitState, a: nat, to: nat): Outcome
    requires a < |snapshot| == |c.index|
  {
    var from := snapshot[a];
    if from !in c.touched && to !in c.touched then FastAccept
    else if c.index[a] != from then SkipChangedModule
    else if !ValidTarget(snapshot, c.index, from, to) then SkipInvalidTarget
    else if ObjectiveWith(t, c.index, a, to) >= t.objective(c.index) - t.threshold then SkipRejected
    else Accept
  }

  ghost function AfterProposal(t: Terrain, snapshot: seq<nat>, c: CommitState, a: nat, to: nat): (r: CommitState)
    requires a < |snapshot| == |c.index|
    ensures |r.index| == |c.index|
  {
    var outcome, from := OutcomeOf(t, snapshot, c, a, to), snapshot[a];
    if outcome.Accepted() then
      CommitState(c.index[a := to], c.touched + {from, to}, c.counts.After(outcome),
                  c.log + [Commit(a, from, to, outcome.FastAccept?,
                                  ObjectiveWith(t, c.index, a, to) - t.objective(c.index))])
    else c.(counts := c.counts.After(outcome))
  }

  /** A node that chose its own module proposes nothing. */
  ghost function Committed(t: Terrain, snapshot: seq<nat>, choices: seq<nat>, order: seq<nat>): (r: CommitState)
    requires |choices| == |snapshot| && forall i :: 0 <= i < |order| ==> order[i] < |snapshot|
    ensures |r.index| == |snapshot|
  {
    if order == [] then CommitState(snapshot, {}, NO_COUNTS, [])
    else
      var n := |order| - 1;
      var before, a := Committed(t, snapshot, choices, order[..n]), order[n];
      if choices[a] == snapshot[a] then before else AfterProposal(t, snapshot, before, a, choices[a])
  }

  /** Against the snapshot, every node that is visited chooses a module. */
  ghost predicate ChoicesOk(t: Terrain, firstLoop: bool, s: SweepState, choices: seq<nat>)
    requires s.Ok()
  {
    && |choices| == |s.dirty|
    && forall a :: 0 <= a < |choices| ==>
         choices[a] < |choices| && ChoiceOk(t, firstLoop, s, a, choices[a])
  }

  ghost predicate ChoiceOk(t: Terrain, firstLoop: bool, s: SweepState, a: nat, to: nat)
    requires s.Ok() && a < |s.dirty|
  {
    if Skipped(firstLoop, s, a) then to == s.list.index[a] else Chosen(t, s.list, a, to)
  }

  /** Visited nodes that chose their own module are clean. */
  ghost function Cleared(firstLoop: bool, s: SweepState, choices: seq<nat>): (r: seq<bool>)
    requires s.Ok() && |choices| == |s.dirty|
    ensures |r| == |s.dirty|
  {
    seq(|s.dirty|, i requires 0 <= i < |s.dirty| =>
      s.dirty[i] && (Skipped(firstLoop, s, i) || choices[i] != s.list.index[i]))
  }

  /** The neighbours of all committed nodes are dirty. */
  ghost function MarkedAll(edges: seq<Edge>, dirty: seq<bool>, log: seq<Commit>): (r: seq<bool>)
    ensures |r| == |dirty|
  {
    if log == [] then dirty
    else Marked(MarkedAll(edges, dirty, log[..|log| - 1]), Neighbours(edges, log[|log| - 1].node))
  }

  /** The modules without members, in order. */
  function EmptyOnes(members: seq<nat>): seq<nat>
  {
    if members == [] then []
    else EmptyOnes(members[..|members| - 1]) + (if members[|members| - 1] == 0 then [|members| - 1] else [])
  }

  /** Proposals for all nodes against one snapshot, committed in any order. */
  ghost predicate SweptInParallel(t: Terrain, firstLoop: bool, s: SweepState, choices: seq<nat>, order: seq<nat>,
                                  s': SweepState, counts: SweepCounts)
  {
    && s.Ok() && ChoicesOk(t, firstLoop, s, choices)
    && |order| == |choices| && Distinct(order) && (forall i :: 0 <= i < |order| ==> order[i] < |choices|)
    && var c := Committed(t, s.list.index, choices, order);
       && s'.list == ListState(c.index, AllMembers(c.index, |c.index|), EmptyOnes(AllMembers(c.index, |c.index|)))
       && s'.dirty == MarkedAll(t.edges, Cleared(firstLoop, s, choices), c.log)
       && counts == c.counts
  }

  // ----- What the log of commits tells -----

  /** The assignment after a list of commits. */
  function Replay(index: seq<nat>, log: seq<Commit>): (r: seq<nat>)
    ensures |r| == |index|
  {
    if log == [] then index
    else
      var c := log[|log| - 1];
      var before := Replay(index, log[..|log| - 1]);
      if c.node < |index| then before[c.node := c.to] else before
  }

  /** A commit changes the objective of the assignment it is applied to by its gain, and never moves the last member
      of a module into an empty one. A commit that was checked again improves the objective. */
  ghost predicate CommitOk(t: Terrain, index: seq<nat>, c: Commit)
  {
    && c.node < |index| && index[c.node] == c.from && c.from != c.to
    && (Count(index, c.from) > 1 || Count(index, c.to) > 0)
    && c.gain == ObjectiveWith(t, index, c.node, c.to) - t.objective(index)
    && (!c.fast ==> c.gain < -t.threshold)
  }

  /** An earlier commit of the log has module m for its old or new module. */
  predicate Touched(log: seq<Commit>, m: nat)
  {
    log != [] && (log[|log| - 1].from == m || log[|log| - 1].to == m || Touched(log[..|log| - 1], m))
  }

  function NumFast(log: seq<Commit>): nat
  {
    if log == [] then 0 else NumFast(log[..|log| - 1]) + (if log[|log| - 1].fast then 1 else 0)
  }

  /** Every node commits at most once, and leaves the module it had in the snapshot. */
  ghost predicate OncePerNode(log: seq<Commit>, snapshot: seq<nat>)
  {
    && (forall i, j :: 0 <= i < j < |log| ==> log[i].node != log[j].node)
    && (forall i :: 0 <= i < |log| ==> log[i].node < |snapshot| && log[i].from == snapshot[log[i].node])
  }

  /** Commits are right one after the other, and accepted without a recheck exactly if no earlier one touched their
      modules. */
  ghost predicate LogOk(t: Terrain, index: seq<nat>, log: seq<Commit>)
  {
    log == []
    || (var n := |log| - 1;
        && LogOk(t, index, log[..n])
        && CommitOk(t, Replay(index, log[..n]), log[n])
        && FastIfUntouched(log[..n], log[n]))
  }

  predicate FastIfUntouched(log: seq<Commit>, c: Commit)
  {
    c.fast <==> !Touched(log, c.from) && !Touched(log, c.to)
  }

  /** No proposal sends a node alone in its module into an empty one. */
  ghost predicate SparesLast(snapshot: seq<nat>, choices: seq<nat>)
  {
    && |choices| == |snapshot|
    && forall a :: 0 <= a < |choices| ==>
         Count(snapshot, snapshot[a]) > 1 || Count(snapshot, choices[a]) > 0
  }

  /** The modules no commit touched have the members they had in the snapshot. */
  ghost predicate Untouched(c: CommitState, snapshot: seq<nat>)
  {
    && |c.index| == |snapshot|
    && forall m: nat :: m !in c.touched ==> SameMembers(c.index, snapshot, m)
  }

  ghost predicate SameMembers(index: seq<nat>, snapshot: seq<nat>, m: nat)
    requires |index| == |snapshot|
  {
    forall i :: 0 <= i < |index| ==> (index[i] == m <==> snapshot[i] == m)
  }

  /** What holds while the nodes before order[i] have been gone through. */
  ghost predicate CommitMarks(t: Terrain, snapshot: seq<nat>, c: CommitState, done: seq<nat>)
  {
    && Untouched(c, snapshot) && (forall m: nat :: m in c.touched <==> Touched(c.log, m))
    && LogOk(t, snapshot, c.log) && c.index == Replay(snapshot, c.log) && OncePerNode(c.log, snapshot)
    && (forall k :: 0 <= k < |c.log| ==> c.log[k].node in done)
    && |c.log| == c.counts.accepted && NumFast(c.log) == c.counts.fast && c.counts.changedModule == 0
  }

  lemma {:induction false} LogGrows(t: Terrain, index: seq<nat>, log: seq<Commit>, c: Commit)
    requires LogOk(t, index, log) && CommitOk(t, Replay(index, log), c) && FastIfUntouched(log, c)
    ensures LogOk(t, index, log + [c])
    ensures Replay(index, log + [c]) == Replay(index, log)[c.node := c.to]
    ensures NumFast(log + [c]) == NumFast(log) + (if c.fast then 1 else 0)
    ensures forall m: nat :: Touched(log + [c], m) <==> Touched(log, m) || m == c.from || m == c.to
  {
    assert (log + [c])[..|log|] == log;
  }

  lemma {:induction false} OnceMore(log: seq<Commit>, snapshot: seq<nat>, c: Commit)
    requires OncePerNode(log, snapshot) && c.node < |snapshot| && c.from == snapshot[c.node]
    requires forall i :: 0 <= i < |log| ==> log[i].node != c.node
    ensures OncePerNode(log + [c], snapshot)
  {
  }

  /** A node is where it was until its own commit. */
  lemma {:induction false} ReplayedElsewhere(index: seq<nat>, log: seq<Commit>, a: nat)
    requires a < |index| && forall k :: 0 <= k < |log| ==> log[k].node != a
    ensures Replay(index, log)[a] == index[a]
  {
    if log != [] { ReplayedElsewhere(index, log[..|log| - 1], a); }
  }

  lemma {:induction false} UntouchedByMove(c: CommitState, snapshot: seq<nat>, a: nat, to: nat)
    requires Untouched(c, snapshot) && a < |snapshot| && c.index[a] == snapshot[a]
    ensures forall m: nat :: m !in c.touched && m != snapshot[a] && m != to ==>
              SameMembers(c.index[a := to], snapshot, m)
  {
    forall m: nat | m !in c.touched && m != snapshot[a] && m != to
      ensures SameMembers(c.index[a := to], snapshot, m)
    {
      assert SameMembers(c.index, snapshot, m);
    }
  }

  /** One more node keeps the marks: its node still sits where it sat in the snapshot, so the module test of the
      recheck never skips it. */
  lemma {:induction false} MarksGrow(t: Terrain, snapshot: seq<nat>, choices: seq<nat>, c: CommitState, done: seq<nat>,
                                     a: nat)
    requires CommitMarks(t, snapshot, c, done) && SparesLast(snapshot, choices) && a < |snapshot| && a !in done
    requires choices[a] != snapshot[a]
    ensures |c.index| == |snapshot| && c.index[a] == snapshot[a]
    ensures !OutcomeOf(t, snapshot, c, a, choices[a]).SkipChangedModule?
    ensures CommitMarks(t, snapshot, AfterProposal(t, snapshot, c, a, choices[a]), done + [a])
  {
    hide LogOk, CommitOk, Touched, Replay, OncePerNode, NumFast, SameMembers;
    var to := choices[a];
    ReplayedElsewhere(snapshot, c.log, a);
    var outcome := OutcomeOf(t, snapshot, c, a, to);
    if outcome.Accepted() {
      var commit := Commit(a, snapshot[a], to, outcome.FastAccept?,
                           ObjectiveWith(t, c.index, a, to) - t.objective(c.index));
      LastMemberStays(t, snapshot, choices, c, a);
      LogGrows(t, snapshot, c.log, commit);
      OnceMore(c.log, snapshot, commit);
      UntouchedByMove(c, snapshot, a, to);
    }
  }

  lemma {:induction false} LastMemberStays(t: Terrain, snapshot: seq<nat>, choices: seq<nat>, c: CommitState, a: nat)
    requires Untouched(c, snapshot) && SparesLast(snapshot, choices) && a < |snapshot|
    requires c.index[a] == snapshot[a] != choices[a]
    requires OutcomeOf(t, snapshot, c, a, choices[a]).Accepted()
    ensures CommitOk(t, c.index,
                     Commit(a, snapshot[a], choices[a], OutcomeOf(t, snapshot, c, a, choices[a]).FastAccept?,
                            ObjectiveWith(t, c.index, a, choices[a]) - t.objective(c.index)))
  {
    var from, to := snapshot[a], choices[a];
    if OutcomeOf(t, snapshot, c, a, to).FastAccept? {
      CountSame(c.index, snapshot, from);
      CountSame(c.index, snapshot, to);
    }
  }

  lemma {:induction false} CommittedMarks(t: Terrain, snapshot: seq<nat>, choices: seq<nat>, order: seq<nat>)
    requires |choices| == |snapshot| && SparesLast(snapshot, choices) && Distinct(order)
    requires forall i :: 0 <= i < |order| ==> order[i] < |snapshot|
    ensures CommitMarks(t, snapshot, Committed(t, snapshot, choices, order), order)
  {
    hide CommitMarks, SparesLast, AfterProposal;
    if order == [] {
      NothingMarked(t, snapshot);
    } else {
      var n := |order| - 1;
      var a, before := order[n], Committed(t, snapshot, choices, order[..n]);
      CommittedMarks(t, snapshot, choices, order[..n]);
      assert order == order[..n] + [a];
      if choices[a] == snapshot[a] {
        MarksSkip(t, snapshot, before, order[..n], a);
      } else {
        MarksGrow(t, snapshot, choices, before, order[..n], a);
      }
    }
  }

  lemma {:induction false} NothingMarked(t: Terrain, snapshot: seq<nat>)
    ensures CommitMarks(t, snapshot, CommitState(snapshot, {}, NO_COUNTS, []), [])
  {
  }

  lemma {:induction false} MarksSkip(t: Terrain, snapshot: seq<nat>, c: CommitState, done: seq<nat>, a: nat)
    requires CommitMarks(t, snapshot, c, done)
    ensures CommitMarks(t, snapshot, c, done + [a])
  {
    hide Untouched, LogOk, OncePerNode;
  }

  // ----- The core loop -----

  datatype Sweep = Serial(visits: seq<Visit>) | Parallel(choices: seq<nat>, order: seq<nat>, counts: SweepCounts)

  ghost predicate SweepMade(t: Terrain, firstLoop: bool, parallel: bool, s: SweepState, sweep: Sweep, s': SweepState,
                            numMoved: nat)
  {
    match sweep
    case Serial(visits) => !parallel && SweptSerially(t, firstLoop, s, visits, s', numMoved)
    case Parallel(choices, order, counts) =>
      parallel && SweptInParallel(t, firstLoop, s, choices, order, s', counts) && numMoved == counts.accepted
  }

  /** The sweeps of one optimization, the states between them and the numbers of moves they report. */
  datatype CoreRun = CoreRun(states: seq<SweepState>, sweeps: seq<Sweep>, moved: seq<nat>)
  {
    predicate Sized()
    {
      |sweeps| > 0 && |states| == |sweeps| + 1 && |moved| == |sweeps|
    }

    function First(): SweepState
      requires Sized()
    {
      states[0]
    }

    function Last(): SweepState
      requires Sized()
    {
      states[|sweeps|]
    }
  }

  /** Something moved, and the objective fell by more than the improvement threshold. */
  ghost predicate Effective(t: Terrain, improvement: real, s: SweepState, s': SweepState, numMoved: nat)
  {
    numMoved > 0 && t.objective(s'.list.index) < t.objective(s.list.index) - improvement
  }

  /** The sweeps so far, all of them effective. */
  ghost predicate SweepsOk(t: Terrain, firstLoop: bool, parallel: bool, improvement: real, run: CoreRun, n: nat)
    requires n <= |run.sweeps| && |run.states| == |run.sweeps| + 1 && |run.moved| == |run.sweeps|
  {
    forall k :: 0 <= k < |run.sweeps| ==>
      && SweepMade(t, firstLoop, parallel, run.states[k], run.sweeps[k], run.states[k + 1], run.moved[k])
      && (k < n ==> Effective(t, improvement, run.states[k], run.states[k + 1], run.moved[k]))
  }

  /** At least one sweep is made. All but the last are effective, and the last is not unless it is the one that the
      limit (0 for none) allows. */
  ghost predicate CoreRunOk(t: Terrain, firstLoop: bool, parallel: bool, improvement: real, limit: nat, run: CoreRun,
                            numEffective: nat)
  {
    && run.Sized() && numEffective <= |run.sweeps| <= numEffective + 1
    && SweepsOk(t, firstLoop, parallel, improvement, run, numEffective)
    && (limit > 0 ==> |run.sweeps| <= limit)
    && (numEffective == |run.sweeps| ==> |run.sweeps| == limit)
    && (var n := |run.sweeps| - 1;
        numEffective == n <==> !Effective(t, improvement, run.states[n], run.states[n + 1], run.moved[n]))
  }

  /** A run with one more sweep. */
  ghost function Grown(run: CoreRun, sweep: Sweep, s: SweepState, numMoved: nat): CoreRun
  {
    CoreRun(run.states + [s], run.sweeps + [sweep], run.moved + [numMoved])
  }

  /** The first n sweeps, all of them effective. */
  ghost predicate SoFar(t: Terrain, firstLoop: bool, parallel: bool, improvement: real, run: CoreRun, n: nat,
                        first: SweepState, last: SweepState)
  {
    && |run.states| == n + 1 && |run.sweeps| == |run.moved| == n
    && SweepsOk(t, firstLoop, parallel, improvement, run, n)
    && run.states[0] == first && run.states[n] == last
  }

  lemma {:induction false} RunStarts(t: Terrain, firstLoop: bool, parallel: bool, improvement: real, s: SweepState)
    ensures SoFar(t, firstLoop, parallel, improvement, CoreRun([s], [], []), 0, s, s)
  {
  }

  /** An effective sweep goes on, unless it uses up the limit; any other ends the run. */
  lemma {:induction false} RunGoesOn(t: Terrain, firstLoop: bool, parallel: bool, improvement: real, limit: nat,
                                     run: CoreRun, n: nat, first: SweepState, last: SweepState, sweep: Sweep,
                                     s: SweepState, numMoved: nat)
    requires SoFar(t, firstLoop, parallel, improvement, run, n, first, last) && (limit > 0 ==> n < limit)
    requires SweepMade(t, firstLoop, parallel, last, sweep, s, numMoved)
    ensures var run' := Grown(run, sweep, s, numMoved);
            && run'.Sized() && run'.First() == first && run'.Last() == s
            && if Effective(t, improvement, last, s, numMoved) then
                 && SoFar(t, firstLoop, parallel, improvement, run', n + 1, first, s)
                 && (n + 1 == limit ==> CoreRunOk(t, firstLoop, parallel, improvement, limit, run', n + 1))
               else CoreRunOk(t, firstLoop, parallel, improvement, limit, run', n)
  {
    hide SweepMade, Effective;
  }

  lemma {:induction false} NoneAccepted(t: Terrain, snapshot: seq<nat>, choices: seq<nat>, order: seq<nat>)
    requires |choices| == |snapshot| && forall i :: 0 <= i < |order| ==> order[i] < |snapshot|
    requires Committed(t, snapshot, choices, order).counts.accepted == 0
    ensures Committed(t, snapshot, choices, order).index == snapshot
  {
    hide OutcomeOf;
    if order != [] {
      NoneAccepted(t, snapshot, choices, order[..|order| - 1]);
    }
  }

  /** A sweep that reports no moves leaves the assignment. */
  lemma {:induction false} QuietSweepStays(t: Terrain, firstLoop: bool, parallel: bool, s: SweepState, sweep: Sweep,
                                           s': SweepState, numMoved: nat)
    requires SweepMade(t, firstLoop, parallel, s, sweep, s', numMoved)
    ensures numMoved == 0 ==> s'.list.index == s.list.index
  {
    hide ChoiceOk, VisitsOk, AfterVisits, MovedByAll, ListState.Ok, Committed;
    if numMoved == 0 {
      match sweep
      case Serial(visits) => QuietVisits(t, firstLoop, s, visits);
      case Parallel(choices, order, counts) => NoneAccepted(t, s.list.index, choices, order);
    }
  }

  lemma {:induction false} SerialMade(t: Terrain, firstLoop: bool, s: SweepState, visits: seq<Visit>, s': SweepState,
                                      numMoved: nat)
    requires SweptSerially(t, firstLoop, s, visits, s', numMoved)
    ensures SweepMade(t, firstLoop, false, s, Serial(visits), s', numMoved)
  {
  }
}
