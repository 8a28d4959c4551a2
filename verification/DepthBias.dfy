/** When a bias for deeper trees can make the recursion end with a longer code.

    Sub-searches and super searches run without the depth bias and without a preferred number of
    modules, because neither is copied into their configuration. Only the acceptance test of the
    recursion has the bias. So what matters is what a sub-search can return, and here all its
    codelengths are those of a network: codebooks over the flow of leaf nodes or the enter flow of
    modules, without the entropy correction and without recorded teleportation. */
module DepthBias {
  import opened Sums
  import opened FlowNetwork
  import opened MapEquations
  import opened Logarithms
  import opened BoundaryFlow
  import opened TreeCodelength
  import opened RecursivePartition

  /** Growth of the code function. */
  function Growth(code: Code, p: real, d: real): real
  {
    code.PLogP(p + d) - code.PLogP(p)
  }

  /** The more there is, the faster it grows, as p * log(p) does. */
  ghost predicate Convex(code: Code)
  {
    forall p: real, q: real, d: real :: 0.0 <= p <= q && 0.0 <= d ==> Growth(code, p, d) <= Growth(code, q, d)
  }

  // ----- Sets of leaf nodes, as the members of module 1 -----

  /** Every leaf node of the whole is in exactly one half, and no other leaf node is. */
  ghost predicate Halves(whole: seq<nat>, a: seq<nat>, b: seq<nat>)
  {
    && |whole| == |a| == |b|
    && forall i :: 0 <= i < |whole| ==>
         (if whole[i] == 1 then (a[i] == 1 <==> b[i] != 1) else a[i] != 1 && b[i] != 1)
  }

  function Rest(whole: seq<nat>, part: seq<nat>): (r: seq<nat>)
    requires |whole| == |part|
    ensures |r| == |whole|
    ensures forall i :: 0 <= i < |r| ==> r[i] == if whole[i] == 1 && part[i] != 1 then 1 else 0
  {
    seq(|whole|, i requires 0 <= i < |whole| => if whole[i] == 1 && part[i] != 1 then 1 else 0)
  }

  ghost predicate Sized(n: nat, parts: seq<seq<nat>>)
  {
    forall k :: 0 <= k < |parts| ==> |parts[k]| == n
  }

  /** Number of parts that leaf node i is in. */
  ghost function NumIn(n: nat, parts: seq<seq<nat>>, i: nat): nat
    requires Sized(n, parts) && i < n
  {
    if parts == [] then 0
    else NumIn(n, parts[..|parts| - 1], i) + (if parts[|parts| - 1][i] == 1 then 1 else 0)
  }

  /** Every leaf node of the whole is in exactly one part, and no other leaf node is. */
  ghost predicate Splits(whole: seq<nat>, parts: seq<seq<nat>>)
  {
    && Sized(|whole|, parts)
    && forall i :: 0 <= i < |whole| ==> NumIn(|whole|, parts, i) == if whole[i] == 1 then 1 else 0
  }

  lemma {:induction false} SplitLast(whole: seq<nat>, parts: seq<seq<nat>>)
    requires Splits(whole, parts) && parts != []
    ensures Sized(|whole|, parts) && |parts[|parts| - 1]| == |whole|
    ensures Halves(whole, parts[|parts| - 1], Rest(whole, parts[|parts| - 1]))
    ensures Splits(Rest(whole, parts[|parts| - 1]), parts[..|parts| - 1])
  {
  }

  lemma {:induction false} MembersHalves(w: seq<real>, whole: seq<nat>, a: seq<nat>, b: seq<nat>)
    requires |w| == |whole| && Halves(whole, a, b)
    ensures Members(w, whole, 1) == Members(w, a, 1) + Members(w, b, 1)
  {
    if w != [] {
      var n := |w| - 1;
      MembersHalves(w[..n], whole[..n], a[..n], b[..n]);
    }
  }

  function MembersOfParts(w: seq<real>, parts: seq<seq<nat>>): (r: seq<real>)
    requires Sized(|w|, parts)
    ensures |r| == |parts| && forall k :: 0 <= k < |r| ==> r[k] == Members(w, parts[k], 1)
  {
    seq(|parts|, k requires 0 <= k < |parts| => Members(w, parts[k], 1))
  }

  lemma {:induction false} MembersSplit(w: seq<real>, whole: seq<nat>, parts: seq<seq<nat>>)
    requires |w| == |whole| && Splits(whole, parts)
    ensures Sum(MembersOfParts(w, parts)) == Members(w, whole, 1)
    decreases |parts|
  {
    if parts == [] {
      MembersZero(w, whole, 1);
    } else {
      var n := |parts| - 1;
      var rest := Rest(whole, parts[n]);
      SplitLast(whole, parts);
      MembersSplit(w, rest, parts[..n]);
      MembersHalves(w, whole, parts[n], rest);
      assert MembersOfParts(w, parts)[..n] == MembersOfParts(w, parts[..n]);
    }
  }

  // ----- Flow across the borders -----

  function DataOf(net: Network, whole: seq<nat>): FlowData
    requires net.Valid() && |whole| == |net.nodes|
  {
    ModuleData(net, whole, 1)
  }

  function EntersOf(net: Network, parts: seq<seq<nat>>): (r: seq<real>)
    requires net.Valid() && Sized(|net.nodes|, parts)
    ensures |r| == |parts| && forall k :: 0 <= k < |r| ==> r[k] == DataOf(net, parts[k]).enterFlow
  {
    seq(|parts|, k requires 0 <= k < |parts| => DataOf(net, parts[k]).enterFlow)
  }

  /** What leaves a half leaves the whole or enters the other half, and what enters the whole enters a half.
      Nothing is visited less than it is entered. */
  ghost predicate FlowFits(net: Network)
    requires net.Valid()
  {
    && (forall i :: 0 <= i < |net.nodes| ==> net.nodes[i].flow >= 0.0)
    && (forall whole: seq<nat> :: |whole| == |net.nodes| ==>
          0.0 <= DataOf(net, whole).enterFlow <= DataOf(net, whole).flow && 0.0 <= DataOf(net, whole).exitFlow)
    && (forall whole: seq<nat>, a: seq<nat>, b: seq<nat> ::
          |whole| == |a| == |b| == |net.nodes| && Halves(whole, a, b) ==>
          && DataOf(net, a).exitFlow <= DataOf(net, whole).exitFlow + DataOf(net, b).enterFlow
          && DataOf(net, whole).enterFlow <= DataOf(net, a).enterFlow + DataOf(net, b).enterFlow)
  }

  lemma {:induction false} CrossingLinks(edges: seq<Edge>, whole: seq<nat>, a: seq<nat>, b: seq<nat>)
    requires EdgesOk(edges, |whole|) && Halves(whole, a, b)
    requires forall k :: 0 <= k < |edges| ==> edges[k].flow >= 0.0
    ensures OutOf(edges, whole, 1) >= 0.0 && InTo(edges, whole, 1) >= 0.0 && Internal(edges, whole, 1) >= 0.0
    ensures OutOf(edges, a, 1) <= OutOf(edges, whole, 1) + InTo(edges, b, 1)
    ensures InTo(edges, a, 1) <= InTo(edges, whole, 1) + OutOf(edges, b, 1)
    ensures OutOf(edges, whole, 1) <= OutOf(edges, a, 1) + OutOf(edges, b, 1)
    ensures InTo(edges, whole, 1) <= InTo(edges, a, 1) + InTo(edges, b, 1)
  {
    if edges != [] { CrossingLinks(edges[..|edges| - 1], whole, a, b); }
  }

  /** Links have some flow, no node is entered more than it is visited, and no teleportation is recorded. */
  ghost predicate Physical(model: Model, net: Network)
  {
    && Initialised(model, net.edges, net.nodes) && !model.recordedTeleportation && !net.recordedTeleportation
    && (forall k :: 0 <= k < |net.edges| ==> net.edges[k].flow >= 0.0)
    && (forall a :: 0 <= a < |net.nodes| ==> 0.0 <= net.nodes[a].enterFlow <= net.nodes[a].flow)
  }

  /** The flow of every network that starts from link flow fits. */
  lemma {:induction false} PhysicalFits(model: Model, net: Network)
    requires Physical(model, net)
    ensures net.Valid() && FlowFits(net)
  {
    hide Initialised, OutOf, InTo, Internal, Members, Halves;
    assert net.Valid() by { PhysicalValid(model, net); }
    forall whole: seq<nat> | |whole| == |net.nodes|
      ensures 0.0 <= DataOf(net, whole).enterFlow <= DataOf(net, whole).flow && 0.0 <= DataOf(net, whole).exitFlow
    {
      var none := seq(|whole|, (i: nat) => 0);
      assert Halves(whole, whole, none) by { AllAndNothing(whole, none); }
      Border(model, net, whole);
      CrossingLinks(net.edges, whole, whole, none);
      EnterWithinFlow(net, whole);
    }
    forall whole: seq<nat>, a: seq<nat>, b: seq<nat> | |whole| == |a| == |b| == |net.nodes| && Halves(whole, a, b)
      ensures DataOf(net, a).exitFlow <= DataOf(net, whole).exitFlow + DataOf(net, b).enterFlow
      ensures DataOf(net, whole).enterFlow <= DataOf(net, a).enterFlow + DataOf(net, b).enterFlow
    {
      Border(model, net, whole);
      Border(model, net, a);
      Border(model, net, b);
      CrossingLinks(net.edges, whole, a, b);
    }
  }

  lemma {:induction false} PhysicalValid(model: Model, net: Network)
    requires Physical(model, net)
    ensures net.Valid()
  {
  }

  lemma {:induction false} AllAndNothing(whole: seq<nat>, none: seq<nat>)
    requires |none| == |whole| && forall i :: 0 <= i < |none| ==> none[i] == 0
    ensures Halves(whole, whole, none)
  {
  }

  lemma {:induction false} Border(model: Model, net: Network, whole: seq<nat>)
    requires Physical(model, net) && net.Valid() && |whole| == |net.nodes|
    ensures var d := DataOf(net, whole);
            if model.undirected then
              d.exitFlow == d.enterFlow == (OutOf(net.edges, whole, 1) + InTo(net.edges, whole, 1)) / 2.0
            else d.exitFlow == OutOf(net.edges, whole, 1) && d.enterFlow == InTo(net.edges, whole, 1)
  {
    hide Initialised;
    if model.undirected {
      UndirectedBorder(model, net, whole, 1);
    } else {
      DirectedBorder(model, net, whole, 1);
    }
  }

  lemma {:induction false} EnterWithinFlow(net: Network, whole: seq<nat>)
    requires net.Valid() && |whole| == |net.nodes| && !net.recordedTeleportation
    requires Internal(net.edges, whole, 1) >= 0.0
    requires forall a :: 0 <= a < |net.nodes| ==> 0.0 <= net.nodes[a].enterFlow <= net.nodes[a].flow
    ensures DataOf(net, whole).enterFlow <= DataOf(net, whole).flow
  {
    var d := MemberData(net.nodes, whole, 1);
    assert d.Get(Enter) == Members(Values(net.nodes, Enter), whole, 1);
    assert d.Get(Flow) == Members(Values(net.nodes, Flow), whole, 1);
    MembersLess(Values(net.nodes, Enter), Values(net.nodes, Flow), whole, 1);
  }

  lemma {:induction false} MembersLess(v: seq<real>, w: seq<real>, index: seq<nat>, m: nat)
    requires |v| == |w| == |index| && forall i :: 0 <= i < |v| ==> v[i] <= w[i]
    ensures Members(v, index, m) <= Members(w, index, m)
  {
    if v != [] {
      var n := |v| - 1;
      MembersLess(v[..n], w[..n], index[..n], m);
    }
  }

  lemma {:induction false} HalvesFit(net: Network, whole: seq<nat>, a: seq<nat>, b: seq<nat>)
    requires net.Valid() && FlowFits(net) && |whole| == |net.nodes| && Halves(whole, a, b)
    ensures |a| == |b| == |whole|
    ensures DataOf(net, a).exitFlow <= DataOf(net, whole).exitFlow + DataOf(net, b).enterFlow
    ensures DataOf(net, b).exitFlow <= DataOf(net, whole).exitFlow + DataOf(net, a).enterFlow
    ensures DataOf(net, whole).enterFlow <= DataOf(net, a).enterFlow + DataOf(net, b).enterFlow
  {
    hide DataOf;
    assert Halves(whole, b, a);
  }

  /** Whatever is entered is entered through a part. */
  lemma {:induction false} EntersSplit(net: Network, whole: seq<nat>, parts: seq<seq<nat>>)
    requires net.Valid() && FlowFits(net) && |whole| == |net.nodes| && Splits(whole, parts)
    ensures DataOf(net, whole).enterFlow <= Sum(EntersOf(net, parts))
    decreases |parts|
  {
    hide DataOf, Network.Valid, Splits, Halves, FlowFits, Sum;
    if parts == [] {
      EmptyData(net, whole);
      NothingEntered(net);
    } else {
      var n := |parts| - 1;
      SplitLast(whole, parts);
      HalvesFit(net, whole, parts[n], Rest(whole, parts[n]));
      EntersSplit(net, Rest(whole, parts[n]), parts[..n]);
      EntersMore(net, parts);
    }
  }

  lemma {:induction false} NothingEntered(net: Network)
    requires net.Valid()
    ensures Sum(EntersOf(net, [])) == 0.0
  {
  }

  lemma {:induction false} EntersMore(net: Network, parts: seq<seq<nat>>)
    requires net.Valid() && Sized(|net.nodes|, parts) && parts != []
    ensures var n := |parts| - 1;
            Sum(EntersOf(net, parts)) == Sum(EntersOf(net, parts[..n])) + DataOf(net, parts[n]).enterFlow
  {
    hide DataOf, Network.Valid;
    var n := |parts| - 1;
    assert EntersOf(net, parts)[..n] == EntersOf(net, parts[..n]);
  }

  lemma {:induction false} EmptyData(net: Network, whole: seq<nat>)
    requires net.Valid() && |whole| == |net.nodes| && Splits(whole, [])
    ensures DataOf(net, whole) == ZERO_FLOW
  {
    ModuleDataEmpty(net, whole, 1);
  }

  /** What leaves a part leaves the whole or enters another part. */
  lemma {:induction false} ExitSplit(net: Network, whole: seq<nat>, parts: seq<seq<nat>>, k: nat)
    requires net.Valid() && FlowFits(net) && |whole| == |net.nodes| && Splits(whole, parts) && k < |parts|
    ensures DataOf(net, parts[k]).exitFlow
         <= DataOf(net, whole).exitFlow + Sum(EntersOf(net, parts)) - DataOf(net, parts[k]).enterFlow
    decreases |parts|
  {
    hide DataOf, Network.Valid, Splits, Halves, FlowFits, Sum;
    var n := |parts| - 1;
    SplitLast(whole, parts);
    EntersMore(net, parts);
    var rest := Rest(whole, parts[n]);
    HalvesFit(net, whole, parts[n], rest);
    if k == n {
      EntersSplit(net, rest, parts[..n]);
    } else {
      ExitSplit(net, rest, parts[..n], k);
    }
  }

  // ----- Codebooks -----

  /** Codebook of a module of leaf nodes. */
  function LeafBook(code: Code, net: Network, whole: seq<nat>): real
    requires net.Valid() && |whole| == |net.nodes|
  {
    Expanded(code, ChildFlows(Values(net.nodes, Flow), whole, 1), DataOf(net, whole).exitFlow)
  }

  /** Codebook of a module over the modules that it is split into. */
  function IndexBook(code: Code, net: Network, whole: seq<nat>, parts: seq<seq<nat>>): real
    requires net.Valid() && |whole| == |net.nodes| && Sized(|net.nodes|, parts)
  {
    Expanded(code, EntersOf(net, parts), DataOf(net, whole).exitFlow)
  }

  function LeafBooks(code: Code, net: Network, parts: seq<seq<nat>>): (r: seq<real>)
    requires net.Valid() && Sized(|net.nodes|, parts)
    ensures |r| == |parts| && forall k :: 0 <= k < |r| ==> r[k] == LeafBook(code, net, parts[k])
  {
    seq(|parts|, k requires 0 <= k < |parts| => LeafBook(code, net, parts[k]))
  }

  /** The members of group g, in order. */
  function Select(parts: seq<seq<nat>>, group: seq<nat>, g: nat): seq<seq<nat>>
    requires |parts| == |group|
  {
    if parts == [] then []
    else
      var n := |parts| - 1;
      Select(parts[..n], group[..n], g) + (if group[n] == g then [parts[n]] else [])
  }

  lemma {:induction false} SelectSized(n: nat, parts: seq<seq<nat>>, group: seq<nat>, g: nat)
    requires |parts| == |group| && Sized(n, parts)
    ensures Sized(n, Select(parts, group, g))
  {
    if parts != [] { SelectSized(n, parts[..|parts| - 1], group[..|parts| - 1], g); }
  }

  lemma {:induction false} SelectEnters(net: Network, parts: seq<seq<nat>>, group: seq<nat>, g: nat)
    requires net.Valid() && |parts| == |group| && Sized(|net.nodes|, parts)
    ensures Sized(|net.nodes|, Select(parts, group, g))
    ensures EntersOf(net, Select(parts, group, g)) == ChildFlows(EntersOf(net, parts), group, g)
  {
    SelectSized(|net.nodes|, parts, group, g);
    if parts != [] {
      var n := |parts| - 1;
      SelectEnters(net, parts[..n], group[..n], g);
      assert EntersOf(net, parts)[..n] == EntersOf(net, parts[..n]);
    }
  }

  /** Each super module is split into the modules of its group. */
  ghost predicate Groups(supers: seq<seq<nat>>, parts: seq<seq<nat>>, group: seq<nat>)
  {
    && |group| == |parts| && (forall h :: 0 <= h < |group| ==> group[h] < |supers|)
    && forall g :: 0 <= g < |supers| ==> Splits(supers[g], Select(parts, group, g))
  }

  lemma {:induction false} GroupsSized(whole: seq<nat>, supers: seq<seq<nat>>, parts: seq<seq<nat>>, group: seq<nat>)
    requires Splits(whole, supers) && Groups(supers, parts, group)
    ensures Sized(|whole|, supers) && |parts| == |group| && forall h :: 0 <= h < |group| ==> group[h] < |supers|
  {
  }

  /** Codebooks of the super modules over the modules below them. */
  function GroupBooks(code: Code, net: Network, supers: seq<seq<nat>>, parts: seq<seq<nat>>, group: seq<nat>)
    : (r: seq<real>)
    requires net.Valid() && Sized(|net.nodes|, supers) && Sized(|net.nodes|, parts) && |parts| == |group|
    ensures |r| == |supers| && forall g :: 0 <= g < |r| ==>
              r[g] == Expanded(code, ChildFlows(EntersOf(net, parts), group, g), DataOf(net, supers[g]).exitFlow)
  {
    seq(|supers|, g requires 0 <= g < |supers| =>
      Expanded(code, ChildFlows(EntersOf(net, parts), group, g), DataOf(net, supers[g]).exitFlow))
  }

  /** What a super search reports: its index codebook and the codebooks of the super modules. */
  function SuperCodelength(code: Code, net: Network, whole: seq<nat>, supers: seq<seq<nat>>, parts: seq<seq<nat>>,
                           group: seq<nat>): real
    requires net.Valid() && |whole| == |net.nodes| && |parts| == |group|
    requires Sized(|net.nodes|, supers) && Sized(|net.nodes|, parts)
  {
    IndexBook(code, net, whole, supers) + Sum(GroupBooks(code, net, supers, parts, group))
  }

  // ----- Taking out the modules below a super level -----

  function Raised(code: Code, exits: seq<real>, flows: seq<real>): (r: seq<real>)
    requires |exits| == |flows|
    ensures |r| == |exits| && forall g :: 0 <= g < |r| ==> r[g] == code.PLogP(exits[g] + flows[g])
  {
    seq(|exits|, g requires 0 <= g < |exits| => code.PLogP(exits[g] + flows[g]))
  }

  /** Raising every rate from w to f raises the parts by no more than it raises the whole. */
  lemma {:induction false} PartsGrowLess(code: Code, exit: real, exits: seq<real>, ws: seq<real>, fs: seq<real>,
                                         total: real, n: nat)
    requires Convex(code) && |exits| == |ws| == |fs| && n <= |ws| && exit >= 0.0
    requires forall g :: 0 <= g < |ws| ==>
               0.0 <= ws[g] <= fs[g] && 0.0 <= exits[g] && exits[g] + ws[g] <= exit + total
    ensures Sum(ws[..n]) <= Sum(fs[..n])
    ensures Sum(Raised(code, exits, fs)[..n]) - Sum(Raised(code, exits, ws)[..n])
         <= Growth(code, exit + total, Sum(fs[..n]) - Sum(ws[..n]))
  {
    hide Code.PLogP;
    if n > 0 {
      var m := n - 1;
      PartsGrowLess(code, exit, exits, ws, fs, total, m);
      var a, b := Raised(code, exits, fs), Raised(code, exits, ws);
      assert a[..n][..m] == a[..m] && b[..n][..m] == b[..m] && fs[..n][..m] == fs[..m] && ws[..n][..m] == ws[..m];
      var so, d := Sum(fs[..m]) - Sum(ws[..m]), fs[m] - ws[m];
      assert Growth(code, exits[m] + ws[m], d) <= Growth(code, exit + total + so, d);
      assert exits[m] + ws[m] + d == exits[m] + fs[m];
    }
  }

  lemma {:induction false} AllGrowLess(code: Code, exit: real, exits: seq<real>, ws: seq<real>, fs: seq<real>)
    requires Convex(code) && |exits| == |ws| == |fs| && exit >= 0.0
    requires forall g :: 0 <= g < |ws| ==>
               0.0 <= ws[g] <= fs[g] && 0.0 <= exits[g] && exits[g] + ws[g] <= exit + Sum(ws)
    ensures Sum(Raised(code, exits, fs)) - Sum(Raised(code, exits, ws))
         <= code.PLogP(exit + Sum(fs)) - code.PLogP(exit + Sum(ws))
  {
    hide Code.PLogP, Sum, Raised, Convex;
    var n := |ws|;
    PartsGrowLess(code, exit, exits, ws, fs, Sum(ws), n);
    assert ws[..n] == ws && fs[..n] == fs;
    assert Raised(code, exits, ws)[..n] == Raised(code, exits, ws);
    assert Raised(code, exits, fs)[..n] == Raised(code, exits, fs);
    assert exit + Sum(ws) + (Sum(fs) - Sum(ws)) == exit + Sum(fs);
  }

  lemma {:induction false} FilteredBook(code: Code, rates: seq<real>, index: seq<nat>, m: nat, exit: real)
    requires |rates| == |index| && forall i :: 0 <= i < |rates| ==> rates[i] >= 0.0
    ensures Expanded(code, ChildFlows(rates, index, m), exit)
         == code.PLogP(exit + Members(rates, index, m)) - Members(Logs(code, rates), index, m) - code.PLogP(exit)
  {
    hide Code.PLogP, Members, ChildFlows, Logs, Sum;
    ChildFlowSum(rates, index, m);
    ChildFlowLogs(code, rates, index, m);
    ChildFlowSum(Logs(code, rates), index, m);
  }

  /** Codebooks that differ only in how much they code for. */
  lemma {:induction false} BooksSum(books: seq<real>, raised: seq<real>, logs: seq<real>, exitLogs: seq<real>)
    requires |books| == |raised| == |logs| == |exitLogs|
    requires forall g :: 0 <= g < |books| ==> books[g] == raised[g] - logs[g] - exitLogs[g]
    ensures Sum(books) == Sum(raised) - Sum(logs) - Sum(exitLogs)
  {
    if books != [] {
      var n := |books| - 1;
      BooksSum(books[..n], raised[..n], logs[..n], exitLogs[..n]);
    }
  }

  function ExitsOf(net: Network, parts: seq<seq<nat>>): (r: seq<real>)
    requires net.Valid() && Sized(|net.nodes|, parts)
    ensures |r| == |parts| && forall k :: 0 <= k < |r| ==> r[k] == DataOf(net, parts[k]).exitFlow
  {
    seq(|parts|, k requires 0 <= k < |parts| => DataOf(net, parts[k]).exitFlow)
  }

  /** The leaf codebooks of the parts, for the same leaf nodes as the whole. */
  lemma {:induction false} LeafBooksSum(code: Code, net: Network, whole: seq<nat>, parts: seq<seq<nat>>)
    requires net.Valid() && FlowFits(net) && |whole| == |net.nodes| && Splits(whole, parts)
    ensures Sized(|net.nodes|, parts)
    ensures var flows, exits := Values(net.nodes, Flow), ExitsOf(net, parts);
            && Sum(LeafBooks(code, net, parts))
               == Sum(Raised(code, exits, MembersOfParts(flows, parts))) - Members(Logs(code, flows), whole, 1)
                  - Sum(Logs(code, exits))
            && LeafBook(code, net, whole)
               == code.PLogP(DataOf(net, whole).exitFlow + Members(flows, whole, 1))
                  - Members(Logs(code, flows), whole, 1) - code.PLogP(DataOf(net, whole).exitFlow)
            && Sum(MembersOfParts(flows, parts)) == Members(flows, whole, 1)
  {
    assert Sized(|net.nodes|, parts);
    hide Code.PLogP, Members, DataOf, FlowFits, Splits, Sum, Expanded, ChildFlows, Network.Valid, LeafBook, Raised,
         LeafBooks, Logs;
    FlowsNonNegative(net);
    LeafBookIs(code, net, whole);
    LeafBooksAre(code, net, parts);
    MembersSplit(Logs(code, Values(net.nodes, Flow)), whole, parts);
    MembersSplit(Values(net.nodes, Flow), whole, parts);
  }

  lemma {:induction false} LeafBooksAre(code: Code, net: Network, parts: seq<seq<nat>>)
    requires net.Valid() && FlowFits(net) && Sized(|net.nodes|, parts)
    ensures var flows, exits := Values(net.nodes, Flow), ExitsOf(net, parts);
            Sum(LeafBooks(code, net, parts))
            == Sum(Raised(code, exits, MembersOfParts(flows, parts))) - Sum(MembersOfParts(Logs(code, flows), parts))
               - Sum(Logs(code, exits))
  {
    hide Code.PLogP, Members, DataOf, FlowFits, Sum, Network.Valid, LeafBook;
    FlowsNonNegative(net);
    var flows, exits := Values(net.nodes, Flow), ExitsOf(net, parts);
    var logs := MembersOfParts(Logs(code, flows), parts);
    forall g | 0 <= g < |parts|
      ensures LeafBooks(code, net, parts)[g]
           == Raised(code, exits, MembersOfParts(flows, parts))[g] - logs[g] - Logs(code, exits)[g]
    {
      LeafBookIs(code, net, parts[g]);
    }
    BooksSum(LeafBooks(code, net, parts), Raised(code, exits, MembersOfParts(flows, parts)), logs, Logs(code, exits));
  }

  lemma {:induction false} LeafBookIs(code: Code, net: Network, whole: seq<nat>)
    requires net.Valid() && |whole| == |net.nodes|
    requires forall i :: 0 <= i < |net.nodes| ==> Values(net.nodes, Flow)[i] >= 0.0
    ensures var flows, exit := Values(net.nodes, Flow), DataOf(net, whole).exitFlow;
            LeafBook(code, net, whole)
            == code.PLogP(exit + Members(flows, whole, 1)) - Members(Logs(code, flows), whole, 1) - code.PLogP(exit)
  {
    hide Code.PLogP, Members, DataOf, Expanded, ChildFlows;
    FilteredBook(code, Values(net.nodes, Flow), whole, 1, DataOf(net, whole).exitFlow);
  }

  lemma {:induction false} FlowsNonNegative(net: Network)
    requires net.Valid() && FlowFits(net)
    ensures forall i :: 0 <= i < |net.nodes| ==> Values(net.nodes, Flow)[i] >= 0.0
  {
  }

  lemma {:induction false} EntersNonNegative(net: Network, parts: seq<seq<nat>>)
    requires net.Valid() && FlowFits(net) && Sized(|net.nodes|, parts)
    ensures forall k :: 0 <= k < |parts| ==>
              0.0 <= EntersOf(net, parts)[k] <= MembersOfParts(Values(net.nodes, Flow), parts)[k]
    ensures forall k :: 0 <= k < |parts| ==> ExitsOf(net, parts)[k] >= 0.0
  {
    hide Members;
    forall k | 0 <= k < |parts|
      ensures 0.0 <= EntersOf(net, parts)[k] <= MembersOfParts(Values(net.nodes, Flow), parts)[k]
    {
      assert MemberData(net.nodes, parts[k], 1).Get(Flow) == Members(Values(net.nodes, Flow), parts[k], 1);
    }
  }

  /** The super codelength with the codebooks of the super modules written out. */
  lemma {:induction false} GroupBooksSum(code: Code, net: Network, whole: seq<nat>, supers: seq<seq<nat>>,
                                         parts: seq<seq<nat>>, group: seq<nat>)
    requires net.Valid() && FlowFits(net) && Sized(|net.nodes|, supers) && Sized(|net.nodes|, parts)
    requires |group| == |parts| && forall h :: 0 <= h < |group| ==> group[h] < |supers|
    ensures var enters, exits := EntersOf(net, parts), ExitsOf(net, supers);
            && Sum(GroupBooks(code, net, supers, parts, group))
               == Sum(Raised(code, exits, MembersAll(enters, group, |supers|))) - Sum(Logs(code, enters))
                  - Sum(Logs(code, exits))
            && Sum(MembersAll(enters, group, |supers|)) == Sum(enters)
  {
    hide Code.PLogP, Members, DataOf, FlowFits, Sum, Expanded, ChildFlows, Raised, Logs, GroupBooks, Network.Valid;
    EntersNonNegative(net, parts);
    var enters := EntersOf(net, parts);
    GroupBooksAre(code, net, supers, parts, group);
    MembersTotal(enters, group, |supers|);
    MembersTotal(Logs(code, enters), group, |supers|);
  }

  lemma {:induction false} GroupBooksAre(code: Code, net: Network, supers: seq<seq<nat>>, parts: seq<seq<nat>>,
                                         group: seq<nat>)
    requires net.Valid() && Sized(|net.nodes|, supers) && Sized(|net.nodes|, parts) && |group| == |parts|
    requires forall k :: 0 <= k < |parts| ==> 0.0 <= EntersOf(net, parts)[k]
    ensures var enters, exits := EntersOf(net, parts), ExitsOf(net, supers);
            Sum(GroupBooks(code, net, supers, parts, group))
            == Sum(Raised(code, exits, MembersAll(enters, group, |supers|)))
               - Sum(MembersAll(Logs(code, enters), group, |supers|)) - Sum(Logs(code, exits))
  {
    hide Code.PLogP, Members, DataOf, Sum, Expanded, ChildFlows, Network.Valid;
    var enters, exits := EntersOf(net, parts), ExitsOf(net, supers);
    var entered, logs := MembersAll(enters, group, |supers|), MembersAll(Logs(code, enters), group, |supers|);
    forall g | 0 <= g < |supers|
      ensures GroupBooks(code, net, supers, parts, group)[g]
           == Raised(code, exits, entered)[g] - logs[g] - Logs(code, exits)[g]
    {
      FilteredBook(code, enters, group, g, exits[g]);
    }
    BooksSum(GroupBooks(code, net, supers, parts, group), Raised(code, exits, entered), logs, Logs(code, exits));
  }

  /** Rates of the super modules that fit into one another. */
  lemma {:induction false} SuperRates(net: Network, whole: seq<nat>, supers: seq<seq<nat>>, parts: seq<seq<nat>>,
                                      group: seq<nat>, g: nat)
    requires net.Valid() && FlowFits(net) && |whole| == |net.nodes| && Splits(whole, supers)
    requires Sized(|net.nodes|, parts) && Groups(supers, parts, group) && g < |supers|
    ensures Sized(|net.nodes|, supers) && Sized(|net.nodes|, Select(parts, group, g))
    ensures var ws := MembersAll(EntersOf(net, parts), group, |supers|);
            && EntersOf(net, supers)[g] <= ws[g] <= Members(Values(net.nodes, Flow), supers[g], 1) && 0.0 <= ws[g]
  {
    var enters, flows, picked := EntersOf(net, parts), Values(net.nodes, Flow), Select(parts, group, g);
    assert Splits(supers[g], picked);
    hide DataOf, FlowFits, Splits, Groups, ChildFlows, Members, Network.Valid;
    SelectEnters(net, parts, group, g);
    ChildFlowSum(enters, group, g);
    EntersSplit(net, supers[g], picked);
    MembersSplit(flows, supers[g], picked);
    EntersNonNegative(net, picked);
    SumLess(EntersOf(net, picked), MembersOfParts(flows, picked));
    SumNonNegative(EntersOf(net, picked));
  }

  lemma {:induction false} SumLess(xs: seq<real>, ys: seq<real>)
    requires |xs| == |ys| && forall i :: 0 <= i < |xs| ==> xs[i] <= ys[i]
    ensures Sum(xs) <= Sum(ys)
  {
    if xs != [] { SumLess(xs[..|xs| - 1], ys[..|ys| - 1]); }
  }

  /** With the modules below a super level taken out, the code is longer than one level by no more than the
      super level was longer than the index codebook it replaced. */
  lemma {:induction false} CoarseTree(code: Code, net: Network, whole: seq<nat>, supers: seq<seq<nat>>,
                                      parts: seq<seq<nat>>, group: seq<nat>)
    requires Convex(code) && net.Valid() && FlowFits(net) && |whole| == |net.nodes|
    requires Splits(whole, supers) && Sized(|net.nodes|, parts) && Groups(supers, parts, group)
    ensures Sized(|net.nodes|, supers) && |parts| == |group|
    ensures IndexBook(code, net, whole, supers) + Sum(LeafBooks(code, net, supers)) - LeafBook(code, net, whole)
         <= SuperCodelength(code, net, whole, supers, parts, group) - IndexBook(code, net, whole, parts)
  {
    hide DataOf, FlowFits, Splits, Groups, Members, Network.Valid, Sum, Code.PLogP, LeafBook, Convex, Raised, IndexBook,
         GroupBooks, LeafBooks, Logs;
    GroupsSized(whole, supers, parts, group);
    var flows, enters, exits := Values(net.nodes, Flow), EntersOf(net, parts), ExitsOf(net, supers);
    var exit := DataOf(net, whole).exitFlow;
    var ws, fs := MembersAll(enters, group, |supers|), MembersOfParts(flows, supers);
    LeafBooksSum(code, net, whole, supers);
    GroupBooksSum(code, net, whole, supers, parts, group);
    SupersGrowLess(code, net, whole, supers, parts, group);
    IndexBookIs(code, net, whole, parts);
  }

  lemma {:induction false} IndexBookIs(code: Code, net: Network, whole: seq<nat>, parts: seq<seq<nat>>)
    requires net.Valid() && |whole| == |net.nodes| && Sized(|net.nodes|, parts)
    ensures var enters, exit := EntersOf(net, parts), DataOf(net, whole).exitFlow;
            IndexBook(code, net, whole, parts)
            == code.PLogP(exit + Sum(enters)) - Sum(Logs(code, enters)) - code.PLogP(exit)
  {
  }

  /** No super module codes for more than its parent does. */
  lemma {:induction false} SupersFit(net: Network, whole: seq<nat>, supers: seq<seq<nat>>, parts: seq<seq<nat>>,
                                     group: seq<nat>)
    requires net.Valid() && FlowFits(net) && |whole| == |net.nodes|
    requires Splits(whole, supers) && Sized(|net.nodes|, parts) && Groups(supers, parts, group)
    ensures Sized(|net.nodes|, supers) && |parts| == |group|
    ensures var exits, exit := ExitsOf(net, supers), DataOf(net, whole).exitFlow;
            var ws := MembersAll(EntersOf(net, parts), group, |supers|);
            var fs := MembersOfParts(Values(net.nodes, Flow), supers);
            forall g :: 0 <= g < |supers| ==>
              0.0 <= ws[g] <= fs[g] && 0.0 <= exits[g] && exits[g] + ws[g] <= exit + Sum(ws)
  {
    hide DataOf, FlowFits, Splits, Groups, Members, Network.Valid, Sum;
    GroupsSized(whole, supers, parts, group);
    var exits, exit, enters := ExitsOf(net, supers), DataOf(net, whole).exitFlow, EntersOf(net, supers);
    var ws := MembersAll(EntersOf(net, parts), group, |supers|);
    var fs := MembersOfParts(Values(net.nodes, Flow), supers);
    forall g | 0 <= g < |supers| ensures enters[g] <= ws[g] <= fs[g] && 0.0 <= ws[g] {
      SuperRates(net, whole, supers, parts, group, g);
    }
    SumLess(enters, ws);
    EntersNonNegative(net, supers);
    forall g | 0 <= g < |supers| ensures exits[g] + ws[g] <= exit + Sum(ws) {
      ExitSplit(net, whole, supers, g);
      PartOfDifference(enters, ws, g);
    }
  }

  lemma {:induction false} SupersGrowLess(code: Code, net: Network, whole: seq<nat>, supers: seq<seq<nat>>,
                                          parts: seq<seq<nat>>, group: seq<nat>)
    requires Convex(code) && net.Valid() && FlowFits(net) && |whole| == |net.nodes|
    requires Splits(whole, supers) && Sized(|net.nodes|, parts) && Groups(supers, parts, group)
    ensures Sized(|net.nodes|, supers) && |parts| == |group|
    ensures var exits, exit := ExitsOf(net, supers), DataOf(net, whole).exitFlow;
            var ws := MembersAll(EntersOf(net, parts), group, |supers|);
            var fs := MembersOfParts(Values(net.nodes, Flow), supers);
            Sum(Raised(code, exits, fs)) - Sum(Raised(code, exits, ws))
            <= code.PLogP(exit + Sum(fs)) - code.PLogP(exit + Sum(ws))
  {
    hide DataOf, FlowFits, Splits, Groups, Members, Network.Valid, Sum, Code.PLogP, Convex, Raised;
    GroupsSized(whole, supers, parts, group);
    var exits, exit := ExitsOf(net, supers), DataOf(net, whole).exitFlow;
    var ws := MembersAll(EntersOf(net, parts), group, |supers|);
    var fs := MembersOfParts(Values(net.nodes, Flow), supers);
    SupersFit(net, whole, supers, parts, group);
    ExitNonNegative(net, whole);
    AllGrowLess(code, exit, exits, ws, fs);
  }

  lemma {:induction false} ExitNonNegative(net: Network, whole: seq<nat>)
    requires net.Valid() && FlowFits(net) && |whole| == |net.nodes|
    ensures DataOf(net, whole).exitFlow >= 0.0
  {
  }

  /** If every difference is non-negative, one of them is no more than their sum. */
  lemma {:induction false} PartOfDifference(xs: seq<real>, ys: seq<real>, g: nat)
    requires |xs| == |ys| && g < |xs| && forall i :: 0 <= i < |xs| ==> xs[i] <= ys[i]
    ensures ys[g] - xs[g] <= Sum(ys) - Sum(xs)
  {
    var n := |xs| - 1;
    SumLess(xs[..n], ys[..n]);
    if g < n { PartOfDifference(xs[..n], ys[..n], g); }
  }

  // ----- Sub-searches -----

  function MembersOf(members: Module -> seq<nat>, modules: seq<Module>): (r: seq<seq<nat>>)
    ensures |r| == |modules| && forall k :: 0 <= k < |r| ==> r[k] == members(modules[k])
  {
    seq(|modules|, k requires 0 <= k < |modules| => members(modules[k]))
  }

  /** Every module is a set of leaf nodes of the network, and has its codelength, size and flow from there. */
  ghost predicate OnNetwork(search: Search, code: Code, net: Network, members: Module -> seq<nat>)
  {
    && net.Valid() && (forall m: Module :: |members(m)| == |net.nodes|)
    && forall m: Module ::
         && search.codelength(m) == LeafBook(code, net, members(m))
         && search.childDegree(m) == Count(members(m), 1)
         && search.flow(m) == DataOf(net, members(m)).flow
  }

  /** The super modules that one super search finds, and the one of each module below. */
  datatype SuperLevel = SuperLevel(modules: seq<Module>, group: seq<nat>)

  /** A sub-search: the modules that its two-level search finds, and the super levels put on top of them. */
  datatype SubRun = SubRun(found: seq<Module>, levels: seq<SuperLevel>)

  /** The top modules under k super levels. */
  function Tops(run: SubRun, k: nat): seq<Module>
    requires k <= |run.levels|
  {
    if k == 0 then run.found else run.levels[k - 1].modules
  }

  /** There are several modules, and one of them has several children. */
  predicate HasNonTrivial(search: Search, modules: seq<Module>)
  {
    |modules| != 1 && exists k :: 0 <= k < |modules| && search.childDegree(modules[k]) > 1
  }

  function TwoLevel(search: Search, code: Code, net: Network, members: Module -> seq<nat>, m: Module,
                    modules: seq<Module>): SubPartition
    requires net.Valid() && |members(m)| == |net.nodes| && Sized(|net.nodes|, MembersOf(members, modules))
  {
    var index := IndexBook(code, net, members(m), MembersOf(members, modules));
    SubPartition(index + search.Codelengths(modules), index, modules)
  }

  /** The two-level search puts all nodes in one module if what it found is longer than that, unless a modular
      solution is preferred. */
  predicate Switches(search: Search, preferModularSolution: bool, m: Module, two: SubPartition)
  {
    !preferModularSolution && HasNonTrivial(search, two.modules) && two.hierarchicalCodelength > search.codelength(m)
  }

  /** The super modules are neither one nor as many as the modules below, and shorten the index codebook by more
      than the threshold. */
  ghost predicate AddsLevel(search: Search, code: Code, net: Network, members: Module -> seq<nat>, m: Module,
                            below: seq<Module>, level: SuperLevel)
    requires net.Valid() && forall k: Module :: |members(k)| == |net.nodes|
  {
    var supers, parts := MembersOf(members, level.modules), MembersOf(members, below);
    && |level.modules| != 1 && |level.modules| != |below|
    && Splits(members(m), supers) && Groups(supers, parts, level.group)
    && SuperCodelength(code, net, members(m), supers, parts, level.group)
       < IndexBook(code, net, members(m), parts) - search.minimumCodelengthImprovement
  }

  /** What a sub-search returns: the module alone after the switch, and otherwise its top modules over their leaf
      nodes, because the modules below the last super level are removed. */
  ghost predicate Returns(search: Search, code: Code, net: Network, members: Module -> seq<nat>,
                          preferModularSolution: bool, m: Module, run: SubRun)
    requires net.Valid() && forall k: Module :: |members(k)| == |net.nodes|
  {
    var two := TwoLevel(search, code, net, members, m, run.found);
    && Splits(members(m), MembersOf(members, run.found))
    && if Switches(search, preferModularSolution, m, two) then
         run.levels == [] && search.sub(m) == SubPartition(search.codelength(m), 0.0, [m])
       else
         && (run.levels != [] ==> |run.found| != 1 && |run.found| != search.childDegree(m))
         && (forall k :: 0 <= k < |run.levels| ==>
               AddsLevel(search, code, net, members, m, Tops(run, k), run.levels[k]))
         && search.sub(m) == TwoLevel(search, code, net, members, m, Tops(run, |run.levels|))
  }

  ghost predicate FromRuns(search: Search, code: Code, net: Network, members: Module -> seq<nat>,
                           preferModularSolution: bool, runs: Module -> SubRun)
    requires net.Valid() && forall k: Module :: |members(k)| == |net.nodes|
  {
    forall m: Module :: search.childDegree(m) > 2 ==>
      Returns(search, code, net, members, preferModularSolution, m, runs(m))
  }

  lemma {:induction false} CodelengthsAre(search: Search, code: Code, net: Network, members: Module -> seq<nat>,
                                          modules: seq<Module>)
    requires OnNetwork(search, code, net, members)
    ensures Sized(|net.nodes|, MembersOf(members, modules))
    ensures search.Codelengths(modules) == Sum(LeafBooks(code, net, MembersOf(members, modules)))
  {
    hide LeafBook;
    if modules != [] {
      var n := |modules| - 1;
      CodelengthsAre(search, code, net, members, modules[..n]);
      assert MembersOf(members, modules)[..n] == MembersOf(members, modules[..n]);
      assert LeafBooks(code, net, MembersOf(members, modules))[..n]
          == LeafBooks(code, net, MembersOf(members, modules[..n]));
    }
  }

  /** A super level leaves a coarse tree that is shorter than one level, whatever was found below it. */
  lemma {:induction false} LevelKeepsShort(search: Search, code: Code, net: Network, members: Module -> seq<nat>,
                                           m: Module, below: seq<Module>, level: SuperLevel)
    requires OnNetwork(search, code, net, members) && FlowFits(net) && Convex(code)
    requires AddsLevel(search, code, net, members, m, below, level) && search.minimumCodelengthImprovement >= 0.0
    ensures TwoLevel(search, code, net, members, m, level.modules).hierarchicalCodelength
          < search.codelength(m) - search.minimumCodelengthImprovement
  {
    hide FlowFits, Convex, Splits, Groups, SuperCodelength, IndexBook, LeafBook, LeafBooks, Search.Codelengths;
    CodelengthsAre(search, code, net, members, level.modules);
    CoarseTree(code, net, members(m), MembersOf(members, level.modules), MembersOf(members, below), level.group);
  }

  /** Nothing longer comes out of a sub-search that switches to one module, nor from under a super level. */
  lemma {:induction false} RunKeepsShort(search: Search, code: Code, net: Network, members: Module -> seq<nat>,
                                         preferModularSolution: bool, m: Module, run: SubRun)
    requires OnNetwork(search, code, net, members) && FlowFits(net) && Convex(code)
    requires search.minimumCodelengthImprovement >= 0.0 && search.Sensible() && search.childDegree(m) > 2
    requires Returns(search, code, net, members, preferModularSolution, m, run)
    requires !preferModularSolution || run.levels != []
    ensures |search.sub(m).modules| == 1 || |search.sub(m).modules| == search.childDegree(m)
         || search.sub(m).hierarchicalCodelength <= search.codelength(m)
  {
    hide FlowFits, Convex, Splits, OnNetwork, AddsLevel, IndexBook;
    NetworkSized(search, code, net, members);
    var n := |run.levels|;
    var two := TwoLevel(search, code, net, members, m, run.found);
    if !Switches(search, preferModularSolution, m, two) {
      if n > 0 {
        LevelKeepsShort(search, code, net, members, m, Tops(run, n - 1), run.levels[n - 1]);
      } else if !HasNonTrivial(search, run.found) {
        assert search.Distributed(m, run.found);
        if |run.found| != 1 { OneEach(search, run.found); }
      }
    }
  }

  lemma {:induction false} NetworkSized(search: Search, code: Code, net: Network, members: Module -> seq<nat>)
    requires OnNetwork(search, code, net, members)
    ensures net.Valid() && forall m: Module :: |members(m)| == |net.nodes|
  {
  }

  /** Modules with one child each are as many as there are children. */
  lemma {:induction false} OneEach(search: Search, modules: seq<Module>)
    requires forall k :: 0 <= k < |modules| ==> search.childDegree(modules[k]) == 1
    ensures search.Degrees(modules) == |modules|
  {
    if modules != [] { OneEach(search, modules[..|modules| - 1]); }
  }

  lemma {:induction false} RunsConsistent(search: Search, code: Code, net: Network, members: Module -> seq<nat>,
                                          preferModularSolution: bool, runs: Module -> SubRun)
    requires OnNetwork(search, code, net, members)
    requires FromRuns(search, code, net, members, preferModularSolution, runs)
    ensures Consistent(search)
  {
    hide OnNetwork, IndexBook, Splits, AddsLevel;
    NetworkSized(search, code, net, members);
    forall m: Module | search.childDegree(m) > 2
      ensures search.sub(m).hierarchicalCodelength
           == search.sub(m).indexCodelength + search.Codelengths(search.sub(m).modules)
    {
      assert [m][..0] == [];
      assert search.Codelengths([m]) == search.codelength(m);
      assert Returns(search, code, net, members, preferModularSolution, m, runs(m));
    }
  }

  /** So without a preference for modular solutions the bias never lengthens the code. */
  lemma {:induction false} SwitchKeepsShort(search: Search, code: Code, net: Network, members: Module -> seq<nat>,
                                            runs: Module -> SubRun, level: nat)
    requires OnNetwork(search, code, net, members) && FlowFits(net) && Convex(code)
    requires search.minimumCodelengthImprovement >= 0.0 && search.Sensible()
    requires FromRuns(search, code, net, members, false, runs)
    ensures NeverLonger(search, level)
  {
    hide OnNetwork, FlowFits, Convex, Total, RecordOf, Returns, Search.Sensible;
    NetworkSized(search, code, net, members);
    RunsConsistent(search, code, net, members, false, runs);
    forall k: Module, l: nat | l >= level && search.Accepts(k, l)
      ensures search.sub(k).hierarchicalCodelength <= search.codelength(k)
    {
      RunKeepsShort(search, code, net, members, false, k, runs(k));
    }
    forall m: Module ensures Total(RecordOf(search, m, level)) <= search.codelength(m) {
      RecordShort(search, m, level);
    }
  }

  // ----- A network on which the bias lengthens the code -----

  /** A path of four nodes, with flow u at its ends and 2u between them, and a node without links that has the
      rest of the flow. */
  function PathNetwork(u: real): (net: Network)
    ensures net.Valid() && |net.nodes| == 5
  {
    Network([FlowData(u, u, u, 0.0, u, 0.0, 0.0),
             FlowData(2.0 * u, 2.0 * u, 2.0 * u, 0.0, 2.0 * u, 0.0, 0.0),
             FlowData(2.0 * u, 2.0 * u, 2.0 * u, 0.0, 2.0 * u, 0.0, 0.0),
             FlowData(u, u, u, u, u, 0.0, u),
             FlowData(1.0 - 6.0 * u, 0.0, 0.0, 1.0 - 6.0 * u, 1.0 - 6.0 * u, 0.0, 1.0 - 6.0 * u)],
            [Edge(0, 1, 2.0 * u), Edge(1, 2, 2.0 * u), Edge(2, 3, 2.0 * u)], false)
  }

  const UNDIRECTED := Model(0.0, true, false)

  lemma {:induction false} PathPhysical(u: real)
    requires 0.0 < 6.0 * u <= 1.0
    ensures Physical(UNDIRECTED, PathNetwork(u)) && Sum(Values(PathNetwork(u).nodes, Flow)) == 1.0
  {
    hide OutSum, InSum, IsDangling, Sum;
    var net := PathNetwork(u);
    forall a | 0 <= a < 5
      ensures TeleportInitialised(UNDIRECTED, net.edges, net.nodes[a], a)
      ensures net.nodes[a].enterFlow == net.nodes[a].exitFlow
           == OutSum(net.edges, a) / 2.0 + InSum(net.edges, a) / 2.0
    {
      PathSums(u, a);
      assert a == 0 || a == 1 || a == 2 || a == 3 || a == 4;
      NotTeleporting(UNDIRECTED, net.edges, net.nodes[a], a);
    }
    assert Initialised(UNDIRECTED, net.edges, net.nodes);
    PathTotal(u);
  }

  lemma {:induction false} NotTeleporting(model: Model, edges: seq<Edge>, d: FlowData, a: nat)
    requires model.teleportationProbability == 0.0 && d.teleportSourceFlow == d.flow
    requires d.teleportFlow == d.danglingFlow == if IsDangling(edges, a) then d.flow else 0.0
    ensures TeleportInitialised(model, edges, d, a)
  {
    var alpha := model.teleportationProbability;
    assert alpha * d.flow == 0.0;
  }

  lemma {:induction false} PathSums(u: real, a: nat)
    requires a < 5
    ensures var edges := PathNetwork(u).edges;
            && OutSum(edges, a) == (if a < 3 then 2.0 * u else 0.0)
            && InSum(edges, a) == (if 0 < a < 4 then 2.0 * u else 0.0)
            && (IsDangling(edges, a) <==> a >= 3)
  {
    var edges := PathNetwork(u).edges;
    var one, two := edges[..1], edges[..2];
    assert one[..0] == [] && two[..1] == one && edges[..2] == two;
    assert OutSum(one, a) == (if a == 0 then 2.0 * u else 0.0) && InSum(one, a) == (if a == 1 then 2.0 * u else 0.0);
    assert OutSum(two, a) == (if a < 2 then 2.0 * u else 0.0)
        && InSum(two, a) == (if 0 < a < 3 then 2.0 * u else 0.0);
    if a < 3 { assert edges[a].source == a; }
  }

  lemma {:induction false} PathTotal(u: real)
    ensures Sum(Values(PathNetwork(u).nodes, Flow)) == 1.0
  {
    var xs := Values(PathNetwork(u).nodes, Flow);
    assert xs[..4][..3] == xs[..3] && xs[..3][..2] == xs[..2] && xs[..2][..1] == xs[..1] && xs[..1][..0] == [];
    assert Sum(xs[..1]) == u;
    assert Sum(xs[..2]) == 3.0 * u;
    assert Sum(xs[..3]) == 5.0 * u;
    assert Sum(xs[..4]) == 6.0 * u;
  }

  function PathMembers(m: Module): (r: seq<nat>)
    ensures |r| == 5
  {
    if m == 0 then [1, 1, 1, 1, 0] else if m == 1 then [1, 1, 0, 0, 0] else if m == 2 then [0, 0, 1, 1, 0]
    else [0, 0, 0, 0, 1]
  }

  /** Sub-searches find the two halves of the path. */
  function PathRun(m: Module): SubRun
  {
    SubRun([1, 2], [])
  }

  function PathCodelength(code: Code, u: real, m: Module): real
  {
    LeafBook(code, PathNetwork(u), PathMembers(m))
  }

  function PathSub(code: Code, u: real): SubPartition
  {
    var index := IndexBook(code, PathNetwork(u), PathMembers(0), [PathMembers(1), PathMembers(2)]);
    SubPartition(index + (PathCodelength(code, u, 1) + PathCodelength(code, u, 2)), index, [1, 2])
  }

  function PathSearch(settings: Search, code: Code, u: real): Search
  {
    settings.(codelength := (m: Module) => PathCodelength(code, u, m),
              childDegree := (m: Module) => Count(PathMembers(m), 1),
              flow := (m: Module) => DataOf(PathNetwork(u), PathMembers(m)).flow,
              sub := (m: Module) => PathSub(code, u))
  }

  lemma {:induction false} PathCounts()
    ensures Count(PathMembers(0), 1) == 4 && Count(PathMembers(1), 1) == 2 && Count(PathMembers(2), 1) == 2
    ensures forall m: Module :: m > 2 ==> Count(PathMembers(m), 1) == 1
  {
    forall x: seq<nat> | |x| == 5
      ensures Count(x, 1) == (if x[0] == 1 then 1 else 0) + (if x[1] == 1 then 1 else 0) + (if x[2] == 1 then 1 else 0)
                             + (if x[3] == 1 then 1 else 0) + (if x[4] == 1 then 1 else 0)
    {
      FiveCounted(x);
    }
  }

  lemma {:induction false} FiveCounted(x: seq<nat>)
    requires |x| == 5
    ensures Count(x, 1) == (if x[0] == 1 then 1 else 0) + (if x[1] == 1 then 1 else 0) + (if x[2] == 1 then 1 else 0)
                           + (if x[3] == 1 then 1 else 0) + (if x[4] == 1 then 1 else 0)
  {
    assert x[..4][..3] == x[..3] && x[..3][..2] == x[..2] && x[..2][..1] == x[..1] && x[..1][..0] == [];
    assert Count(x[..1], 1) == if x[0] == 1 then 1 else 0;
    assert Count(x[..2], 1) == Count(x[..1], 1) + if x[1] == 1 then 1 else 0;
    assert Count(x[..3], 1) == Count(x[..2], 1) + if x[2] == 1 then 1 else 0;
    assert Count(x[..4], 1) == Count(x[..3], 1) + if x[3] == 1 then 1 else 0;
  }

  /** Two modules with one node of flow u and one of flow 2u each, and flow u across the border. */
  lemma {:induction false} PathExits(u: real)
    requires 0.0 < 6.0 * u <= 1.0
    ensures DataOf(PathNetwork(u), PathMembers(0)).exitFlow == 0.0
    ensures DataOf(PathNetwork(u), PathMembers(1)).exitFlow == DataOf(PathNetwork(u), PathMembers(1)).enterFlow == u
    ensures DataOf(PathNetwork(u), PathMembers(2)).exitFlow == DataOf(PathNetwork(u), PathMembers(2)).enterFlow == u
  {
    var net := PathNetwork(u);
    PathPhysical(u);
    hide Physical, Initialised, DataOf;
    Border(UNDIRECTED, net, PathMembers(0));
    Border(UNDIRECTED, net, PathMembers(1));
    Border(UNDIRECTED, net, PathMembers(2));
    PathBorder(u, PathMembers(0));
    PathBorder(u, PathMembers(1));
    PathBorder(u, PathMembers(2));
  }

  lemma {:induction false} PathBorder(u: real, x: seq<nat>)
    requires |x| == 5
    ensures OutOf(PathNetwork(u).edges, x, 1)
         == (if x[0] == 1 && x[1] != 1 then 2.0 * u else 0.0) + (if x[1] == 1 && x[2] != 1 then 2.0 * u else 0.0)
            + (if x[2] == 1 && x[3] != 1 then 2.0 * u else 0.0)
    ensures InTo(PathNetwork(u).edges, x, 1)
         == (if x[0] != 1 && x[1] == 1 then 2.0 * u else 0.0) + (if x[1] != 1 && x[2] == 1 then 2.0 * u else 0.0)
            + (if x[2] != 1 && x[3] == 1 then 2.0 * u else 0.0)
  {
    var edges := PathNetwork(u).edges;
    var one, two := edges[..1], edges[..2];
    assert one[..0] == [] && two[..1] == one && edges[..2] == two;
    assert OutOf(one, x, 1) == if x[0] == 1 && x[1] != 1 then 2.0 * u else 0.0;
    assert InTo(one, x, 1) == if x[0] != 1 && x[1] == 1 then 2.0 * u else 0.0;
    assert OutOf(two, x, 1) == OutOf(one, x, 1) + if x[1] == 1 && x[2] != 1 then 2.0 * u else 0.0;
    assert InTo(two, x, 1) == InTo(one, x, 1) + if x[1] != 1 && x[2] == 1 then 2.0 * u else 0.0;
  }

  function If(c: bool, x: real): real { if c then x else 0.0 }

  /** Five weights, those of the members of module 1 added up. */
  lemma {:induction false} FiveMembers(w: seq<real>, x: seq<nat>)
    requires |w| == |x| == 5
    ensures Members(w, x, 1)
         == If(x[0] == 1, w[0]) + If(x[1] == 1, w[1]) + If(x[2] == 1, w[2]) + If(x[3] == 1, w[3]) + If(x[4] == 1, w[4])
  {
    assert x[..4][..3] == x[..3] && x[..3][..2] == x[..2] && x[..2][..1] == x[..1] && x[..1][..0] == [];
    assert w[..4][..3] == w[..3] && w[..3][..2] == w[..2] && w[..2][..1] == w[..1] && w[..1][..0] == [];
    assert Members(w[..1], x[..1], 1) == If(x[0] == 1, w[0]);
    assert Members(w[..2], x[..2], 1) == Members(w[..1], x[..1], 1) + If(x[1] == 1, w[1]);
    assert Members(w[..3], x[..3], 1) == Members(w[..2], x[..2], 1) + If(x[2] == 1, w[2]);
    assert Members(w[..4], x[..4], 1) == Members(w[..3], x[..3], 1) + If(x[3] == 1, w[3]);
  }

  lemma {:induction false} PathBooks(code: Code, u: real)
    requires 0.0 < 6.0 * u <= 1.0 && code.PLogP(0.0) == 0.0
    ensures PathCodelength(code, u, 0) == code.PLogP(6.0 * u) - 2.0 * code.PLogP(u) - 2.0 * code.PLogP(2.0 * u)
    ensures PathCodelength(code, u, 1) == code.PLogP(4.0 * u) - 2.0 * code.PLogP(u) - code.PLogP(2.0 * u)
    ensures PathCodelength(code, u, 2) == code.PLogP(4.0 * u) - 2.0 * code.PLogP(u) - code.PLogP(2.0 * u)
    ensures PathSub(code, u).indexCodelength == code.PLogP(2.0 * u) - 2.0 * code.PLogP(u)
  {
    hide Code.PLogP, DataOf, LeafBook, Members, Sum, Physical;
    var net := PathNetwork(u);
    var flows := Values(net.nodes, Flow);
    PathExits(u);
    forall m | 0 <= m < 3
      ensures PathCodelength(code, u, m)
           == code.PLogP(DataOf(net, PathMembers(m)).exitFlow + Members(flows, PathMembers(m), 1))
              - Members(Logs(code, flows), PathMembers(m), 1) - code.PLogP(DataOf(net, PathMembers(m)).exitFlow)
    {
      LeafBookIs(code, net, PathMembers(m));
      FiveMembers(flows, PathMembers(m));
      FiveMembers(Logs(code, flows), PathMembers(m));
    }
    FiveMembers(flows, PathMembers(0));
    FiveMembers(flows, PathMembers(1));
    FiveMembers(flows, PathMembers(2));
    FiveMembers(Logs(code, flows), PathMembers(0));
    FiveMembers(Logs(code, flows), PathMembers(1));
    FiveMembers(Logs(code, flows), PathMembers(2));
    var parts := [PathMembers(1), PathMembers(2)];
    IndexBookIs(code, net, PathMembers(0), parts);
    assert EntersOf(net, parts) == [u, u] && Logs(code, [u, u]) == [code.PLogP(u), code.PLogP(u)];
    SumOfTwo([u, u]);
    SumOfTwo([code.PLogP(u), code.PLogP(u)]);
  }

  /** One module costs between 10u and 12u, the two halves of the path cost 14u. */
  lemma {:induction false} PathLengths(code: Code, log: real -> real, u: real)
    requires 0.0 < 6.0 * u <= 1.0 && IsPLogP(code, log) && log(2.0) == 1.0 && Convex(code)
    ensures 10.0 * u <= PathCodelength(code, u, 0) <= 12.0 * u
    ensures PathSub(code, u).hierarchicalCodelength == 14.0 * u
  {
    hide Code.PLogP, IsPLogP, PathCodelength;
    PLogPOf(code, log, u);
    PathBooks(code, u);
    DoubledLog(code, log, u);
    DoubledLog(code, log, 2.0 * u);
    DoubledLog(code, log, 4.0 * u);
    assert Growth(code, 2.0 * u, 2.0 * u) <= Growth(code, 4.0 * u, 2.0 * u);
    assert Growth(code, 4.0 * u, 2.0 * u) <= Growth(code, 6.0 * u, 2.0 * u);
  }

  /** Small enough for the bias to accept what is longer. */
  function PathUnit(settings: Search, level: nat): (u: real)
    requires settings.Bias(level + 1) > settings.minimumCodelengthImprovement
    ensures 0.0 < 6.0 * u <= 1.0 && 14.0 * u < settings.Bias(level + 1) - settings.minimumCodelengthImprovement
  {
    var room := settings.Bias(level + 1) - settings.minimumCodelengthImprovement;
    if room >= 2.0 then 1.0 / 8.0 else room / 16.0
  }

  lemma {:induction false} PathSplits()
    ensures Splits(PathMembers(0), [PathMembers(1), PathMembers(2)])
  {
    var parts := [PathMembers(1), PathMembers(2)];
    assert parts[..1] == [parts[0]] && |parts[..0]| == 0;
    forall i | 0 <= i < 5 ensures NumIn(5, parts, i) == if PathMembers(0)[i] == 1 then 1 else 0 {
      assert NumIn(5, parts[..1], i) == if parts[0][i] == 1 then 1 else 0;
    }
  }

  /** The path with its search is a run of the recursion in which every sub-search returns what it found. */
  lemma {:induction false} PathOnNetwork(settings: Search, code: Code, u: real)
    requires settings.minimumCodelengthImprovement >= 0.0
    ensures var search, net := PathSearch(settings, code, u), PathNetwork(u);
            && SameSettings(search, settings) && search.Sensible() && OnNetwork(search, code, net, PathMembers)
            && FromRuns(search, code, net, PathMembers, true, PathRun)
  {
    PathCounts();
    PathSplits();
    hide Count, LeafBook, IndexBook, DataOf, Splits, PathMembers;
    var search, net := PathSearch(settings, code, u), PathNetwork(u);
    PairSums(search);
    assert MembersOf(PathMembers, [1, 2]) == [PathMembers(1), PathMembers(2)];
    assert search.Distributed(0, [1, 2]);
  }

  lemma {:induction false} PairSums(search: Search)
    ensures search.Degrees([1, 2]) == search.childDegree(1) + search.childDegree(2)
    ensures search.Codelengths([1, 2]) == search.codelength(1) + search.codelength(2)
  {
    assert [1, 2][..1] == [1] && [1][..0] == [];
    assert search.Degrees([1]) == search.childDegree(1) && search.Codelengths([1]) == search.codelength(1);
  }

  /** Its record is longer than the module it starts from. */
  lemma {:induction false} PathRecord(settings: Search, code: Code, log: real -> real, level: nat)
    requires IsPLogP(code, log) && log(2.0) == 1.0 && Convex(code)
    requires settings.Bias(level + 1) > settings.minimumCodelengthImprovement >= 0.0
    requires PathSearch(settings, code, PathUnit(settings, level)).Sensible()
    ensures !NeverLonger(PathSearch(settings, code, PathUnit(settings, level)), level)
  {
    var u := PathUnit(settings, level);
    var search := PathSearch(settings, code, u);
    PathCounts();
    PathLengths(code, log, u);
    hide Search.Sensible, IsPLogP, Convex, PathCodelength, PathUnit, Count, IndexBook;
    assert search.Bias(level + 1) == settings.Bias(level + 1);
    assert search.sub(0).modules == [1, 2] && search.childDegree(0) == 4;
    assert search.Accepts(0, level);
    var a, b := RecordOf(search, 1, level + 1), RecordOf(search, 2, level + 1);
    PathChildren(search, level);
    assert Total(RecordOf(search, 0, level)) == search.sub(0).indexCodelength + TotalAll([a, b]);
  }

  lemma {:induction false} PathChildren(search: Search, level: nat)
    requires search.Sensible() && search.childDegree(0) == 4 && search.sub(0).modules == [1, 2]
    requires search.childDegree(1) == search.childDegree(2) == 2
    ensures ChildRecords(search, 0, 2, level + 1)
         == [RecordOf(search, 1, level + 1), RecordOf(search, 2, level + 1)]
    ensures TotalAll(ChildRecords(search, 0, 2, level + 1)) == search.codelength(1) + search.codelength(2)
  {
    hide Search.Sensible;
    var a, b := RecordOf(search, 1, level + 1), RecordOf(search, 2, level + 1);
    assert ChildRecords(search, 0, 0, level + 1) == [];
    assert ChildRecords(search, 0, 1, level + 1) == [a];
    assert [a, b][..1] == [a] && [a][..0] == [];
    assert Total(a) == search.codelength(1) && Total(b) == search.codelength(2);
    assert TotalAll([a]) == Total(a);
  }

  /** A recursion with the given settings on a network with a total flow of one. */
  ghost predicate Runs(search: Search, settings: Search, code: Code, model: Model, net: Network,
                       members: Module -> seq<nat>, preferModularSolution: bool, runs: Module -> SubRun)
  {
    && Physical(model, net) && Sum(Values(net.nodes, Flow)) == 1.0
    && SameSettings(search, settings) && search.Sensible() && OnNetwork(search, code, net, members)
    && FromRuns(search, code, net, members, preferModularSolution, runs)
  }

  lemma {:induction false} RunsAreShort(search: Search, settings: Search, code: Code, model: Model, net: Network,
                                        members: Module -> seq<nat>, preferModularSolution: bool,
                                        runs: Module -> SubRun, level: nat)
    requires Convex(code) && settings.minimumCodelengthImprovement >= 0.0
    requires Runs(search, settings, code, model, net, members, preferModularSolution, runs)
    requires !preferModularSolution || settings.Bias(level + 1) <= settings.minimumCodelengthImprovement
    ensures search.Sensible() && NeverLonger(search, level)
  {
    hide Convex, OnNetwork, FromRuns, Physical, Total, RecordOf, Sum, FlowFits, Search.Sensible;
    PhysicalFits(model, net);
    NetworkSized(search, code, net, members);
    if !preferModularSolution {
      SwitchKeepsShort(search, code, net, members, runs, level);
    } else {
      RunsConsistent(search, code, net, members, preferModularSolution, runs);
      SmallBias(search, level);
      forall m: Module ensures Total(RecordOf(search, m, level)) <= search.codelength(m) {
        RecordShort(search, m, level);
      }
    }
  }

  /** Where the bias is larger than the threshold and a modular solution is preferred, it accepts the two halves
      of a path, which cost more than the path in one module. */
  lemma {:induction false} BiasLengthens(settings: Search, code: Code, log: real -> real, level: nat)
    requires IsPLogP(code, log) && log(2.0) == 1.0 && Convex(code)
    requires settings.Bias(level + 1) > settings.minimumCodelengthImprovement >= 0.0
    ensures var u := PathUnit(settings, level);
            var search := PathSearch(settings, code, u);
            && Runs(search, settings, code, UNDIRECTED, PathNetwork(u), PathMembers, true, PathRun)
            && !NeverLonger(search, level)
  {
    hide Search.Sensible, Convex, IsPLogP, OnNetwork, FromRuns, Physical, Total, RecordOf, Sum, Search.Bias, PathSearch;
    var u := PathUnit(settings, level);
    PathOnNetwork(settings, code, u);
    PathPhysical(u);
    PathRecord(settings, code, log, level);
  }

  /** On networks, the recursion never ends longer than it started exactly if no modular solution is preferred
      or the bias one level down is no larger than the improvement threshold. */
  lemma {:induction false} NeverLongerExactly(settings: Search, preferModularSolution: bool, level: nat, code: Code,
                                              log: real -> real)
    requires IsPLogP(code, log) && log(2.0) == 1.0 && Convex(code) && settings.minimumCodelengthImprovement >= 0.0
    ensures !preferModularSolution || settings.Bias(level + 1) <= settings.minimumCodelengthImprovement
       <==> forall search: Search, model: Model, net: Network, members: Module -> seq<nat>, runs: Module -> SubRun ::
              Runs(search, settings, code, model, net, members, preferModularSolution, runs)
              ==> NeverLonger(search, level)
  {
    hide Search.Sensible, Convex, IsPLogP, OnNetwork, FromRuns, Physical, Total, RecordOf, Sum, Search.Bias;
    if !preferModularSolution || settings.Bias(level + 1) <= settings.minimumCodelengthImprovement {
      forall search: Search, model: Model, net: Network, members: Module -> seq<nat>, runs: Module -> SubRun
        | Runs(search, settings, code, model, net, members, preferModularSolution, runs)
        ensures NeverLonger(search, level)
      {
        RunsAreShort(search, settings, code, model, net, members, preferModularSolution, runs, level);
      }
    } else {
      BiasLengthens(settings, code, log, level);
    }
  }
}
