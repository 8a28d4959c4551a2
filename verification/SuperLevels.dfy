/** The search for super modules: levels are put on top of the top modules as long as that shortens
    the code, or as long as a bias for deeper trees says so. */
module SuperLevels {
  import opened Sums
  import opened FlowNetwork
  import opened MapEquations
  import opened BiasedMapEquations
  import opened Partitions
  import opened Consolidation
  import opened Optimizers
  import opened LinkTables
  import opened RecursivePartition

  /** What a search on the network of the top modules returns: its codelength, the part of it above the
      super modules, and the super module of every top module. */
  datatype SuperResult = SuperResult(codelength: real, indexCodelength: real, modules: seq<nat>)

  datatype DepthPreference = DepthPreference(twoLevel: bool, target: nat, strength: real)
  {
    function Bias(depth: nat): real
    {
      if twoLevel then 0.0 else PrefLevelsBias(target, strength, depth)
    }

    predicate Off() { twoLevel || target == 0 || strength <= 0.0 }
  }

  /** Why the loop ended. */
  datatype Ending = TrivialSolution | NotImproved | NoModulesLeft | LimitReached | NoMoreSearches | WrongSize

  /** Number of modules with more than one member. */
  function NumNonTrivial(members: seq<nat>): nat
  {
    if members == [] then 0
    else NumNonTrivial(members[..|members| - 1]) + (if members[|members| - 1] > 1 then 1 else 0)
  }

  /** Number of super modules. */
  function NumSuper(super: SuperResult): int
  {
    NumActive(AllMembers(super.modules, |super.modules|))
  }

  predicate Covers(super: SuperResult, numTopModules: int)
  {
    |super.modules| == numTopModules && forall i :: 0 <= i < |super.modules| ==> super.modules[i] < |super.modules|
  }

  /** More than one super module has more than one module. */
  predicate GoesOn(super: SuperResult)
  {
    NumNonTrivial(AllMembers(super.modules, |super.modules|)) > 1
  }

  lemma {:induction false} TwoMembers(index: seq<nat>, m: nat)
    ensures Count(index, m) > 1 <==> exists i, j :: 0 <= i < j < |index| && index[i] == index[j] == m
  {
    if index != [] {
      var n := |index| - 1;
      TwoMembers(index[..n], m);
      CountZero(index[..n], m);
      if i, j :| 0 <= i < j < |index| && index[i] == index[j] == m {
        CountOne(index, i, j);
      }
      if Count(index[..n], m) > 1 {
        var i, j :| 0 <= i < j < n && index[..n][i] == index[..n][j] == m;
        assert index[i] == index[j] == m;
      } else if Count(index, m) > 1 {
        var i :| 0 <= i < n && index[..n][i] == m;
        assert index[i] == index[n] == m;
      }
    }
  }

  lemma {:induction false} SomeNonTrivial(members: seq<nat>)
    ensures NumNonTrivial(members) > 0 <==> exists m :: 0 <= m < |members| && members[m] > 1
    ensures NumNonTrivial(members) > 1 <==> exists m, k :: 0 <= m < k < |members| && members[m] > 1 && members[k] > 1
  {
    if members != [] {
      var n := |members| - 1;
      var rest := members[..n];
      SomeNonTrivial(rest);
      assert forall m :: 0 <= m < n ==> members[m] == rest[m];
      assert NumNonTrivial(members) == NumNonTrivial(rest) + (if members[n] > 1 then 1 else 0);
    }
  }

  /** Two pairs of top modules that were merged, each pair into a super module of its own. */
  ghost predicate TwoPairs(modules: seq<nat>, i: nat, j: nat, k: nat, l: nat)
  {
    && i < j < |modules| && k < l < |modules|
    && modules[i] == modules[j] && modules[k] == modules[l] && modules[i] != modules[k]
  }

  /** The search goes on upwards exactly if two super modules were made by merging. */
  lemma {:induction false} GoesOnMeans(super: SuperResult, numTopModules: nat)
    requires Covers(super, numTopModules)
    ensures GoesOn(super) <==> exists i: nat, j: nat, k: nat, l: nat :: TwoPairs(super.modules, i, j, k, l)
  {
    hide NumNonTrivial, Count;
    var modules := super.modules;
    var members := AllMembers(modules, |modules|);
    SomeNonTrivial(members);
    if GoesOn(super) {
      var m, n :| 0 <= m < n < |members| && members[m] > 1 && members[n] > 1;
      TwoMembers(modules, m);
      TwoMembers(modules, n);
      var i, j :| 0 <= i < j < |modules| && modules[i] == modules[j] == m;
      var k, l :| 0 <= k < l < |modules| && modules[k] == modules[l] == n;
      assert TwoPairs(modules, i, j, k, l);
    }
    if i: nat, j: nat, k: nat, l: nat :| TwoPairs(modules, i, j, k, l) {
      TwoMembers(modules, modules[i]);
      TwoMembers(modules, modules[k]);
      var m, n := modules[i], modules[k];
      assert members[m] > 1 && members[n] > 1;
      if n < m { assert members[n] > 1 && members[m] > 1; }
    }
  }

  /** Number of top modules that search k starts from. */
  function SizeBefore(searches: seq<SuperResult>, k: nat, startSize: nat): int
    requires k <= |searches|
  {
    if k == 0 then startSize else NumSuper(searches[k - 1])
  }

  class SuperSearch {
    const optimizer: Optimizer
    const minimumCodelengthImprovement: real
    const preference: DepthPreference
    const baseDepth: nat

    var topNetwork: Network
    ghost var assignment: seq<nat>

    constructor (optimizer: Optimizer, minimumCodelengthImprovement: real, preference: DepthPreference, baseDepth: nat,
                 network: Network)
      requires network.Valid() && |network.nodes| > 0
      ensures this.optimizer == optimizer && this.minimumCodelengthImprovement == minimumCodelengthImprovement
      ensures this.preference == preference && this.baseDepth == baseDepth
      ensures topNetwork == network && assignment == Identity(|network.nodes|)
    {
      this.optimizer, this.minimumCodelengthImprovement := optimizer, minimumCodelengthImprovement;
      this.preference, this.baseDepth := preference, baseDepth;
      topNetwork, assignment := network, Identity(|network.nodes|);
    }

    ghost predicate Ready()
      reads this, optimizer, optimizer.objective, optimizer.objective.base
    {
      && optimizer.Configured()
      && optimizer.objective.base.exitNetworkFlowLog
         == optimizer.objective.base.code.PLogP(optimizer.objective.base.exitNetworkFlow)
      && topNetwork.Valid() && |topNetwork.nodes| > 0
    }

    /** Merge the top modules into the super modules that were found. */
    method MergeTopModules(modules: seq<nat>, ghost start: Network)
      requires Ready() && topNetwork.Partition(modules) && Represents(start, assignment, topNetwork)
      modifies this, optimizer, optimizer.objective, optimizer.objective.base,
               optimizer.consolidatedObjective, optimizer.consolidatedObjective.base
      ensures Ready() && Represents(start, assignment, topNetwork)
      ensures |topNetwork.nodes| == NumModules(old(topNetwork), modules)
      ensures MergedBy(old(assignment), modules, assignment)
    {
      hide Represents, Objective, NumModules, Kept, BiasedMapEquation.Tracks, BiasedMapEquation.GetCodelength,
           EmptyListOk;
      optimizer.InitPartition(topNetwork);
      optimizer.MoveActiveNodesToPredefinedModules(modules);
      RepresentsValid(start, assignment, topNetwork);
      var small, grouped := optimizer.ConsolidateModules();
      RepresentsValid(topNetwork, grouped, small);
      RepresentsCompose(start, assignment, topNetwork, grouped, small);
      optimizer.ConstantsOk();
      MergedByCompose(assignment, modules, grouped);
      RepresentsSize(topNetwork, grouped, small);
      topNetwork, assignment := small, Compose(assignment, grouped);
    }

    /** Search k covers the modules it finds on top, and puts some but not all of them together. */
    ghost predicate Nontrivial(searches: seq<SuperResult>, k: nat, startSize: nat)
      requires k < |searches|
    {
      Covers(searches[k], SizeBefore(searches, k, startSize)) && 1 < NumSuper(searches[k]) != |searches[k].modules|
    }

    /** What search k found is shorter than the index codelength it replaces, by more than the threshold less
        the bias for the depth it creates. */
    ghost predicate Improves(searches: seq<SuperResult>, k: nat, indexCodelength: real)
      requires k < |searches|
    {
      searches[k].codelength
      < LastIndex(searches[..k], indexCodelength) - minimumCodelengthImprovement + preference.Bias(baseDepth + k + 1)
    }

    ghost predicate AddsLevel(searches: seq<SuperResult>, k: nat, startSize: nat, indexCodelength: real)
      requires k < |searches|
    {
      Nontrivial(searches, k, startSize) && Improves(searches, k, indexCodelength)
    }

    /** The first n searches add a level each, and after each but the last there was more to merge. */
    ghost predicate LevelsAdded(searches: seq<SuperResult>, n: nat, startSize: nat, indexCodelength: real)
      requires n <= |searches|
    {
      forall k :: 0 <= k < n ==>
        AddsLevel(searches, k, startSize, indexCodelength) && (k < n - 1 ==> GoesOn(searches[k]))
    }

    /** The module of every starting module after each level, which merges them as the search of the level says. */
    ghost predicate LevelsMerged(searches: seq<SuperResult>, n: nat, startSize: nat, levels: seq<seq<nat>>)
      requires n <= |searches|
    {
      && |levels| == n + 1 && levels[0] == Identity(startSize)
      && forall k :: 0 <= k < n ==> MergedBy(levels[k], searches[k].modules, levels[k + 1])
    }

    lemma {:induction false} LevelMerged(searches: seq<SuperResult>, n: nat, startSize: nat, levels: seq<seq<nat>>,
                                         level: seq<nat>)
      requires n < |searches| && LevelsMerged(searches, n, startSize, levels)
      requires MergedBy(levels[n], searches[n].modules, level)
      ensures LevelsMerged(searches, n + 1, startSize, levels + [level])
    {
      hide MergedBy;
    }

    lemma {:induction false} LevelAdded(searches: seq<SuperResult>, n: nat, startSize: nat, indexCodelength: real)
      requires n < |searches| && LevelsAdded(searches, n, startSize, indexCodelength)
      requires n > 0 ==> GoesOn(searches[n - 1])
      requires AddsLevel(searches, n, startSize, indexCodelength)
      ensures LevelsAdded(searches, n + 1, startSize, indexCodelength)
      ensures SizeBefore(searches, n + 1, startSize) == NumSuper(searches[n])
    {
      hide SuperSearch.AddsLevel, GoesOn, NumSuper;
    }

    lemma {:induction false} Endings(searches: seq<SuperResult>, n: nat, limit: nat, startSize: nat,
                                     indexCodelength: real)
      requires n <= |searches|
      ensures n == limit ==> EndedBy(LimitReached, searches, n, limit, startSize, indexCodelength)
      ensures n == |searches| ==> EndedBy(NoMoreSearches, searches, n, limit, startSize, indexCodelength)
      ensures n > 0 && !GoesOn(searches[n - 1]) ==>
                EndedBy(NoModulesLeft, searches, n, limit, startSize, indexCodelength)
      ensures n < |searches| && !Covers(searches[n], SizeBefore(searches, n, startSize)) ==>
                EndedBy(WrongSize, searches, n, limit, startSize, indexCodelength)
      ensures n < |searches| && Covers(searches[n], SizeBefore(searches, n, startSize))
                && !Nontrivial(searches, n, startSize) ==>
                EndedBy(TrivialSolution, searches, n, limit, startSize, indexCodelength)
      ensures n < |searches| && Nontrivial(searches, n, startSize) && !Improves(searches, n, indexCodelength) ==>
                EndedBy(NotImproved, searches, n, limit, startSize, indexCodelength)
    {
    }

    /** With n levels created, each way to end names the first test that failed. */
    ghost predicate EndedBy(ending: Ending, searches: seq<SuperResult>, n: nat, superLevelLimit: nat, startSize: nat,
                            indexCodelength: real)
      requires n <= |searches|
    {
      match ending
      case LimitReached => n == superLevelLimit
      case NoModulesLeft => n > 0 && !GoesOn(searches[n - 1])
      case NoMoreSearches => n == |searches|
      case WrongSize => n < |searches| && !Covers(searches[n], SizeBefore(searches, n, startSize))
      case TrivialSolution =>
        n < |searches| && Covers(searches[n], SizeBefore(searches, n, startSize)) && !Nontrivial(searches, n, startSize)
      case NotImproved =>
        n < |searches| && Nontrivial(searches, n, startSize) && !Improves(searches, n, indexCodelength)
    }

    /** Put levels on top as long as a search finds a partition that is not trivial and passes the test.
        Every level has strictly fewer top modules than the one below, whatever made it pass. Without
        the bias every level also shortens the code by more than the threshold. */
    method FindHierarchicalSuperModules(searches: seq<SuperResult>, superLevelLimit: nat, indexCodelength: real,
                                        codelength: real)
      returns (numLevelsCreated: nat, hierarchicalCodelength: real, ending: Ending, ghost levels: seq<seq<nat>>)
      requires Ready() && assignment == Identity(|topNetwork.nodes|)
      modifies this, optimizer, optimizer.objective, optimizer.objective.base,
               optimizer.consolidatedObjective, optimizer.consolidatedObjective.base
      ensures Ready() && Represents(old(topNetwork), assignment, topNetwork)
      ensures |topNetwork.nodes| + numLevelsCreated <= old(|topNetwork.nodes|)
      ensures numLevelsCreated > 0 ==> |topNetwork.nodes| > 1
      ensures numLevelsCreated <= |searches| && (superLevelLimit != 0 ==> numLevelsCreated <= superLevelLimit)
      ensures superLevelLimit == 0 ==> numLevelsCreated == 0
      ensures hierarchicalCodelength == codelength + Gained(searches[..numLevelsCreated], indexCodelength)
      ensures preference.Off() ==> Saved(hierarchicalCodelength, codelength, numLevelsCreated,
                minimumCodelengthImprovement)
      ensures |topNetwork.nodes| == SizeBefore(searches, numLevelsCreated, old(|topNetwork.nodes|))
      ensures LevelsAdded(searches, numLevelsCreated, old(|topNetwork.nodes|), indexCodelength)
      ensures EndedBy(ending, searches, numLevelsCreated, superLevelLimit, old(|topNetwork.nodes|), indexCodelength)
      ensures LevelsMerged(searches, numLevelsCreated, old(|topNetwork.nodes|), levels)
      ensures assignment == levels[numLevelsCreated]
    {
      hide Represents, Objective, Network.Valid, SuperSearch.Ready, MergedBy, DepthPreference.Bias, Saved, Gained,
           LastIndex, NumSuper, GoesOn, SizeBefore, NumModules, SuperSearch.LevelsAdded, SuperSearch.EndedBy;
      levels := [assignment];
      ReadyNetwork();
      RepresentsItself(topNetwork);
      numLevelsCreated, hierarchicalCodelength := 0, codelength;
      SavedNothing(codelength, minimumCodelengthImprovement);
      GainedNothing(searches, indexCodelength);
      ghost var start := topNetwork;
      NothingAdded(searches, |start.nodes|, indexCodelength);
      Endings(searches, 0, superLevelLimit, |start.nodes|, indexCodelength);
      if superLevelLimit == 0 {
        return 0, codelength, LimitReached, levels;
      }
      var oldIndexLength := indexCodelength;
      while true
        invariant Ready() && Represents(start, assignment, topNetwork)
        invariant |topNetwork.nodes| + numLevelsCreated <= |start.nodes|
        invariant numLevelsCreated > 0 ==> |topNetwork.nodes| > 1
        invariant numLevelsCreated <= |searches| && numLevelsCreated < superLevelLimit
        invariant hierarchicalCodelength == codelength + Gained(searches[..numLevelsCreated], indexCodelength)
        invariant oldIndexLength == LastIndex(searches[..numLevelsCreated], indexCodelength)
        invariant preference.Off() ==>
                  Saved(hierarchicalCodelength, codelength, numLevelsCreated, minimumCodelengthImprovement)
        invariant |topNetwork.nodes| == SizeBefore(searches, numLevelsCreated, |start.nodes|)
        invariant LevelsAdded(searches, numLevelsCreated, |start.nodes|, indexCodelength)
        invariant numLevelsCreated > 0 ==> GoesOn(searches[numLevelsCreated - 1])
        invariant LevelsMerged(searches, numLevelsCreated, |start.nodes|, levels)
        invariant assignment == levels[numLevelsCreated]
        decreases |topNetwork.nodes|
      {
        Endings(searches, numLevelsCreated, superLevelLimit, |start.nodes|, indexCodelength);
        if numLevelsCreated == |searches| {
          return numLevelsCreated, hierarchicalCodelength, NoMoreSearches, levels;
        }
        var super := searches[numLevelsCreated];
        if !Covers(super, |topNetwork.nodes|) {
          return numLevelsCreated, hierarchicalCodelength, WrongSize, levels;
        }
        ReadyNetwork();
        var numSuperModules := NumSuper(super);
        SuperCount(topNetwork, super);
        var trivialSolution := numSuperModules == 1 || numSuperModules == |topNetwork.nodes|;
        if trivialSolution {
          return numLevelsCreated, hierarchicalCodelength, TrivialSolution, levels;
        }
        var superPrefBias := preference.Bias(baseDepth + numLevelsCreated + 1);
        var improvedCodelength := super.codelength < oldIndexLength - minimumCodelengthImprovement + superPrefBias;
        if !improvedCodelength {
          return numLevelsCreated, hierarchicalCodelength, NotImproved, levels;
        }
        PreferenceOff(preference, baseDepth + numLevelsCreated + 1);
        GainedOne(searches, numLevelsCreated, indexCodelength);
        SavedMore(hierarchicalCodelength, codelength, numLevelsCreated, minimumCodelengthImprovement,
            super.codelength - oldIndexLength);
        LevelAdded(searches, numLevelsCreated, |start.nodes|, indexCodelength);
        hierarchicalCodelength := hierarchicalCodelength + (super.codelength - oldIndexLength);
        MergeTopModules(super.modules, start);
        LevelMerged(searches, numLevelsCreated, |start.nodes|, levels, assignment);
        levels := levels + [assignment];
        oldIndexLength := super.indexCodelength;
        numLevelsCreated := numLevelsCreated + 1;
        Endings(searches, numLevelsCreated, superLevelLimit, |start.nodes|, indexCodelength);
        if !GoesOn(super) {
          return numLevelsCreated, hierarchicalCodelength, NoModulesLeft, levels;
        }
        if numLevelsCreated == superLevelLimit {
          return numLevelsCreated, hierarchicalCodelength, LimitReached, levels;
        }
      }
    }

    lemma {:induction false} NothingAdded(searches: seq<SuperResult>, startSize: nat, indexCodelength: real)
      ensures LevelsAdded(searches, 0, startSize, indexCodelength) && SizeBefore(searches, 0, startSize) == startSize
    {
    }

    lemma {:induction false} ReadyNetwork()
      requires Ready()
      ensures topNetwork.Valid() && |topNetwork.nodes| > 0
    {
    }
  }

  /** Two nodes come together exactly if their modules were merged. */
  ghost predicate MergedBy(before: seq<nat>, modules: seq<nat>, after: seq<nat>)
  {
    && |after| == |before| && (forall i :: 0 <= i < |before| ==> before[i] < |modules|)
    && forall i, j :: 0 <= i < |before| && 0 <= j < |before| ==>
         (after[i] == after[j] <==> modules[before[i]] == modules[before[j]])
  }

  lemma {:induction false} MergedByCompose(before: seq<nat>, modules: seq<nat>, grouped: seq<nat>)
    requires (forall i :: 0 <= i < |before| ==> before[i] < |grouped|) && |grouped| == |modules|
    requires forall i, j :: 0 <= i < |modules| && 0 <= j < |modules| ==>
              (grouped[i] == grouped[j] <==> modules[i] == modules[j])
    ensures MergedBy(before, modules, Compose(before, grouped))
  {
  }

  lemma {:induction false} RepresentsSize(net: Network, q: seq<nat>, small: Network)
    requires Represents(net, q, small) && |net.nodes| > 0
    ensures |small.nodes| > 0
  {
    assert q[0] < |small.nodes|;
  }

  lemma {:induction false} SuperCount(net: Network, super: SuperResult)
    requires |net.nodes| > 0 && Covers(super, |net.nodes|)
    ensures 1 <= NumModules(net, super.modules) == NumSuper(super) <= |net.nodes|
  {
    var modules := super.modules;
    CountZero(modules, modules[0]);
    NumZerosBound(AllMembers(modules, |net.nodes|), modules[0]);
  }

  /** Sum of the changes of codelength of the levels created. */
  function Gained(searches: seq<SuperResult>, indexCodelength: real): real
  {
    if searches == [] then 0.0
    else
      var n := |searches| - 1;
      Gained(searches[..n], indexCodelength) + (searches[n].codelength - LastIndex(searches[..n], indexCodelength))
  }

  function LastIndex(searches: seq<SuperResult>, indexCodelength: real): real
  {
    if searches == [] then indexCodelength else searches[|searches| - 1].indexCodelength
  }

  lemma {:induction false} GainedNothing(searches: seq<SuperResult>, indexCodelength: real)
    ensures Gained(searches[..0], indexCodelength) == 0.0
              && LastIndex(searches[..0], indexCodelength) == indexCodelength
  {
  }

  lemma {:induction false} GainedOne(searches: seq<SuperResult>, k: nat, indexCodelength: real)
    requires k < |searches|
    ensures Gained(searches[..k + 1], indexCodelength)
         == Gained(searches[..k], indexCodelength)
             + (searches[k].codelength - LastIndex(searches[..k], indexCodelength))
    ensures LastIndex(searches[..k + 1], indexCodelength) == searches[k].indexCodelength
  {
    assert searches[..k + 1][..k] == searches[..k];
  }

  lemma {:induction false} PreferenceOff(preference: DepthPreference, depth: nat)
    ensures preference.Off() ==> preference.Bias(depth) == 0.0
  {
  }

  /** So many levels have each saved more than the threshold. */
  ghost predicate Saved(now: real, start: real, numLevels: nat, threshold: real)
  {
    now <= start - numLevels as real * threshold && (numLevels > 0 && threshold >= 0.0 ==> now < start)
  }

  lemma {:induction false} SavedNothing(start: real, threshold: real)
    ensures Saved(start, start, 0, threshold)
  {
  }

  lemma {:induction false} SavedMore(now: real, start: real, numLevels: nat, threshold: real, change: real)
    ensures Saved(now, start, numLevels, threshold) && change < -threshold ==>
              Saved(now + change, start, numLevels + 1, threshold)
  {
    assert (numLevels + 1) as real == numLevels as real + 1.0;
    assert (numLevels as real + 1.0) * threshold == numLevels as real * threshold + threshold;
  }
}
