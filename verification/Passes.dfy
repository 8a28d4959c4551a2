/** Runs of an optimizer: passes over networks each of which stands for the one before. */
module Passes {
  import opened Sums
  import opened Partitions
  import opened Consolidation
  import opened LinkTables
  import opened Sweeps

  /** One pass over the active network: start from single-node modules, move to given modules if
      there are any, sweep up to so many times, and consolidate. */
  datatype Pass = Pass(predefined: Option<seq<nat>>, loopLimit: nat, firstLoop: bool)
  {
    predicate Fits(numNodes: nat)
    {
      predefined.Some? ==>
        |predefined.value| == numNodes && forall i :: 0 <= i < numNodes ==> predefined.value[i] < numNodes
    }

    ghost function Start(numNodes: nat): (r: SweepState)
      requires Fits(numNodes)
      ensures r.Ok() && |r.dirty| == numNodes
    {
      if predefined.Some? then StartState(predefined.value) else FreshState(numNodes)
    }

    /** What the pass may make of its network: without sweeps, exactly the given modules or the single nodes, and
        otherwise what the core loop reaches from there. */
    ghost predicate Allows(improvement: real, level: Level)
    {
      && Fits(|level.modules|)
      && var start := Start(|level.modules|);
         if loopLimit == 0 then SameGrouping(level.modules, start.list.index)
         else
           && CoreRunOk(level.terrain, firstLoop, false, improvement, loopLimit, level.run, level.numEffective)
           && level.run.First() == start && SameGrouping(level.modules, level.run.Last().list.index)
    }
  }

  lemma {:induction false} StartIs(pass: Pass, n: nat)
    requires pass.Fits(n)
    ensures pass.Start(n).dirty == FreshState(n).dirty && FreshState(n).list.Ok()
    ensures pass.predefined.None? ==> pass.Start(n) == FreshState(n)
    ensures pass.predefined.Some? ==>
              |pass.predefined.value| == n
              && pass.Start(n).list == ListAfter(FreshState(n).list, pass.predefined.value, n)
  {
    hide ListAfter, ListState.Ok;
  }

  /** A pass that was made: what the sweeps saw, the run of the core loop, and the modules it ended with. */
  datatype Level = Level(terrain: Terrain, run: CoreRun, numEffective: nat, modules: seq<nat>)

  const NO_RUN := CoreRun([], [], [])

  /** The module of every node after some rounds, each of which groups the nodes the round before made. */
  function Flattened(numNodes: nat, levels: seq<seq<nat>>): (r: seq<nat>)
    ensures |r| == numNodes
  {
    if levels == [] then Identity(numNodes)
    else
      var inner, last := Flattened(numNodes, levels[..|levels| - 1]), levels[|levels| - 1];
      seq(numNodes, i requires 0 <= i < numNodes => if inner[i] < |last| then last[inner[i]] else 0)
  }

  lemma {:induction false} FlattenedNext(numNodes: nat, levels: seq<seq<nat>>, q: seq<nat>)
    requires forall i :: 0 <= i < numNodes ==> Flattened(numNodes, levels)[i] < |q|
    ensures Flattened(numNodes, levels + [q]) == Compose(Flattened(numNodes, levels), q)
  {
    assert (levels + [q])[..|levels|] == levels;
  }

  /** Passes are made one after the other until one does not fit the network it finds. */
  ghost predicate PassesMade(passes: seq<Pass>, improvement: real, made: seq<Level>, lastSize: nat)
  {
    LevelsAllowed(passes, improvement, made) && (|made| < |passes| ==> !passes[|made|].Fits(lastSize))
  }

  ghost predicate LevelsAllowed(passes: seq<Pass>, improvement: real, made: seq<Level>)
  {
    && |made| <= |passes|
    && forall k :: 0 <= k < |made| ==> passes[k].Allows(improvement, made[k])
  }

  lemma {:induction false} NothingMade(passes: seq<Pass>, improvement: real, numNodes: nat)
    ensures Flattened(numNodes, []) == Identity(numNodes) && LevelsAllowed(passes, improvement, [])
  {
  }

  lemma {:induction false} LevelsAllowedNext(passes: seq<Pass>, improvement: real, made: seq<Level>, level: Level)
    requires LevelsAllowed(passes, improvement, made) && |made| < |passes|
    requires passes[|made|].Allows(improvement, level)
    ensures LevelsAllowed(passes, improvement, made + [level])
  {
    hide Pass.Allows;
  }

  lemma {:induction false} ComposeIdentity(q: seq<nat>, n: nat)
    requires forall i :: 0 <= i < |q| ==> q[i] < n
    ensures Compose(q, Identity(n)) == q
  {
    assert |Compose(q, Identity(n))| == |q|;
  }
}
