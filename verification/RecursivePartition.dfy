/** The recursive partition as a task graph. Every module is a task that writes one record and spawns
    one task for each accepted sub-module; the tasks run in any order. The records are then added up
    level by level.

    What a sub-search finds is a function of the module: every sub-search starts from the same seed. */
module RecursivePartition {

  /** Modules, the ones that sub-searches find included, by number. */
  type Module = nat

  datatype SubPartition = SubPartition(hierarchicalCodelength: real, indexCodelength: real, modules: seq<Module>)

  /** The network and the searches in it, and the settings of the acceptance test. */
  datatype Search = Search(
    codelength: Module -> real,
    childDegree: Module -> nat,
    flow: Module -> real,
    sub: Module -> SubPartition,
    minimumCodelengthImprovement: real,
    twoLevel: bool,
    preferredNumberOfLevels: nat,
    preferredNumberOfLevelsStrength: real)
  {
    /** A sub-search distributes the children of the module over its sub-modules, none empty. */
    ghost predicate Sensible()
    {
      && minimumCodelengthImprovement >= 0.0
      && forall m: Module :: childDegree(m) > 2 ==> Distributed(m, sub(m).modules)
    }

    ghost predicate Distributed(m: Module, modules: seq<Module>)
    {
      modules != [] && Degrees(modules) == childDegree(m) && forall k :: 0 <= k < |modules| ==>
          childDegree(modules[k]) > 0
    }

    function Degrees(modules: seq<Module>): nat
    {
      if modules == [] then 0 else Degrees(modules[..|modules| - 1]) + childDegree(modules[|modules| - 1])
    }

    function Codelengths(modules: seq<Module>): real
    {
      if modules == [] then 0.0 else Codelengths(modules[..|modules| - 1]) + codelength(modules[|modules| - 1])
    }

    function Flows(modules: seq<Module>): real
    {
      if modules == [] then 0.0 else Flows(modules[..|modules| - 1]) + flow(modules[|modules| - 1])
    }

    function Bias(depth: nat): real
    {
      if twoLevel then 0.0 else PrefLevelsBias(preferredNumberOfLevels, preferredNumberOfLevelsStrength, depth)
    }

    /** The depth bias is off. */
    predicate Unbiased()
    {
      twoLevel || preferredNumberOfLevels == 0 || preferredNumberOfLevelsStrength <= 0.0
    }

    /** A sub-partition is kept if it is neither trivial nor too long. */
    predicate Accepts(m: Module, level: nat)
    {
      && childDegree(m) > 2
      && (var s := sub(m);
          && |s.modules| != 1 && |s.modules| != childDegree(m)
          && s.hierarchicalCodelength < codelength(m) - minimumCodelengthImprovement + Bias(level + 1))
    }
  }

  const LN2: real := 0.6931471805599453

  function PrefLevelsBias(target: nat, strength: real, currentDepth: nat): real
  {
    if target == 0 || strength <= 0.0 then 0.0
    else strength * ((target - currentDepth) as real + 0.5) / LN2
  }

  /** The bias favours a new level exactly up to the target depth, half a step more than nothing at the target itself,
      and every level takes the same amount off it. */
  lemma {:induction false} BiasUpToTarget(target: nat, strength: real, depth: nat)
    ensures target == 0 || strength <= 0.0 ==> PrefLevelsBias(target, strength, depth) == 0.0
    ensures target > 0 && strength > 0.0 ==>
              && (PrefLevelsBias(target, strength, depth) > 0.0 <==> depth <= target)
              && (PrefLevelsBias(target, strength, depth) < 0.0 <==> depth > target)
              && PrefLevelsBias(target, strength, target) * LN2 == strength / 2.0
              && PrefLevelsBias(target, strength, depth) - PrefLevelsBias(target, strength, depth + 1)
                 == 2.0 * PrefLevelsBias(target, strength, target)
  {
    if target > 0 && strength > 0.0 {
      var x := (target - depth) as real + 0.5;
      assert (target - (depth + 1)) as real + 0.5 == x - 1.0;
      SignOfBias(strength, x);
      assert strength * (x - 1.0) == strength * x - strength;
      assert (strength * x - strength) / LN2 == strength * x / LN2 - strength / LN2;
    }
  }

  lemma {:induction false} SignOfBias(strength: real, x: real)
    requires strength > 0.0
    ensures strength * x / LN2 > 0.0 <==> x > 0.0
    ensures strength * x / LN2 < 0.0 <==> x < 0.0
  {
    assert strength * x > 0.0 <==> x > 0.0;
    assert strength * x < 0.0 <==> x < 0.0;
  }

  datatype Record = Record(indexCodelength: real, moduleCodelength: real, leafCodelength: real, queueFlow: real,
      children: seq<Record>)

  lemma {:induction false} SmallerModule(search: Search, m: Module, k: nat)
    requires search.Sensible() && search.childDegree(m) > 2 && |search.sub(m).modules| != 1
              && k < |search.sub(m).modules|
    ensures search.childDegree(search.sub(m).modules[k]) < search.childDegree(m)
  {
    var modules := search.sub(m).modules;
    assert search.Distributed(m, modules);
    DegreeBound(search, modules, k);
  }

  lemma {:induction false} DegreeBound(search: Search, modules: seq<Module>, k: nat)
    requires k < |modules| && forall j :: 0 <= j < |modules| ==> search.childDegree(modules[j]) > 0
    ensures search.Degrees(modules) >= search.childDegree(modules[k]) + |modules| - 1
  {
    var n := |modules| - 1;
    if k < n {
      DegreeBound(search, modules[..n], k);
    } else if n > 0 {
      DegreeBound(search, modules[..n], 0);
    }
  }

  /** The flow of a queue is that of its parts, each module once. */
  lemma {:induction false} FlowsAdd(search: Search, queue: seq<Module>, rest: seq<Module>, m: Module)
    ensures search.Flows([]) == 0.0 && search.Flows([m]) == search.flow(m)
    ensures search.Flows(queue + rest) == search.Flows(queue) + search.Flows(rest)
  {
    assert [m][..0] == [];
    if rest == [] {
      assert queue + rest == queue;
    } else {
      var n := |rest| - 1;
      FlowsAdd(search, queue, rest[..n], m);
      assert (queue + rest)[..|queue| + n] == queue + rest[..n];
    }
  }

  /** The record a depth-first recursion would write. */
  ghost function RecordOf(search: Search, m: Module, level: nat): Record
    requires search.Sensible()
    decreases search.childDegree(m), 1
  {
    if !search.Accepts(m, level) then Record(0.0, 0.0, search.codelength(m), 0.0, [])
    else
      var s := search.sub(m);
      Record(s.indexCodelength, s.hierarchicalCodelength - s.indexCodelength, 0.0, search.Flows(s.modules),
             ChildRecords(search, m, |s.modules|, level + 1))
  }

  ghost function ChildRecords(search: Search, m: Module, n: nat, level: nat): (r: seq<Record>)
    requires search.Sensible() && search.childDegree(m) > 2 && |search.sub(m).modules| != 1
              && n <= |search.sub(m).modules|
    decreases search.childDegree(m), 0, n
    ensures |r| == n
  {
    if n == 0 then []
    else
      SmallerModule(search, m, n - 1);
      ChildRecords(search, m, n - 1, level) + [RecordOf(search, search.sub(m).modules[n - 1], level)]
  }

  /** The records of a queue of modules, in its order. */
  ghost function RecordsOf(search: Search, queue: seq<Module>, level: nat): (r: seq<Record>)
    requires search.Sensible()
    ensures |r| == |queue|
    ensures forall k :: 0 <= k < |queue| ==> r[k] == RecordOf(search, queue[k], level)
  {
    seq(|queue|, k requires 0 <= k < |queue| => RecordOf(search, queue[k], level))
  }

  // ----- The task graph -----

  /** A record whose task has not run yet, or one that is written, with the records of its children. */
  datatype Task =
    | Pending(m: Module, level: nat)
    | Written(indexCodelength: real, moduleCodelength: real, leafCodelength: real, queueFlow: real, children: seq<Task>)

  /** What will stand in the record when all tasks have run. */
  ghost function Outcome(search: Search, t: Task): Record
    requires search.Sensible()
    decreases t, 1
  {
    match t
    case Pending(m, level) => RecordOf(search, m, level)
    case Written(i, mod, leaf, flow, children) => Record(i, mod, leaf, flow, Outcomes(search, children))
  }

  ghost function Outcomes(search: Search, tasks: seq<Task>): (r: seq<Record>)
    requires search.Sensible()
    ensures |r| == |tasks|
    decreases tasks, 0
  {
    if tasks == [] then []
    else Outcomes(search, tasks[..|tasks| - 1]) + [Outcome(search, tasks[|tasks| - 1])]
  }

  lemma {:induction false} OutcomesAt(search: Search, tasks: seq<Task>, k: nat)
    requires search.Sensible() && k < |tasks|
    ensures Outcomes(search, tasks)[k] == Outcome(search, tasks[k])
  {
    if k < |tasks| - 1 { OutcomesAt(search, tasks[..|tasks| - 1], k); }
  }

  /** Running the partition task of one module: it writes its own record and spawns the tasks below it. */
  function RunTask(search: Search, m: Module, level: nat): Task
  {
    if search.childDegree(m) <= 2 then Written(0.0, 0.0, search.codelength(m), 0.0, [])
    else
      var oldModuleCodelength := search.codelength(m);
      var s := search.sub(m);
      var numSubModules := |s.modules|;
      var trivialSubPartition := numSubModules == 1 || numSubModules == search.childDegree(m);
      var improvedCodelength :=
        s.hierarchicalCodelength < oldModuleCodelength - search.minimumCodelengthImprovement + search.Bias(level + 1);
      if trivialSubPartition || !improvedCodelength then Written(0.0, 0.0, oldModuleCodelength, 0.0, [])
      else
        Written(s.indexCodelength, s.hierarchicalCodelength - s.indexCodelength, 0.0, search.Flows(s.modules),
                seq(numSubModules, k requires 0 <= k < numSubModules => Pending(s.modules[k], level + 1)))
  }

  lemma {:induction false} SpawnedOutcomes(search: Search, m: Module, n: nat, level: nat, tasks: seq<Task>)
    requires search.Sensible() && search.childDegree(m) > 2 && |search.sub(m).modules| != 1
    requires n == |tasks| <= |search.sub(m).modules|
    requires forall k :: 0 <= k < n ==> tasks[k] == Pending(search.sub(m).modules[k], level)
    ensures Outcomes(search, tasks) == ChildRecords(search, m, n, level)
  {
    if n > 0 { SpawnedOutcomes(search, m, n - 1, level, tasks[..n - 1]); }
  }

  /** Running a task does not change what will stand in its record. */
  lemma {:induction false} RunTaskOutcome(search: Search, m: Module, level: nat)
    requires search.Sensible()
    ensures Outcome(search, RunTask(search, m, level)) == RecordOf(search, m, level)
  {
    var t := RunTask(search, m, level);
    if search.Accepts(m, level) {
      SpawnedOutcomes(search, m, |search.sub(m).modules|, level + 1, t.children);
    }
  }

  // ----- Any schedule -----

  /** Number of tasks that have still to run, spawned ones included. */
  ghost function Remaining(search: Search, t: Task): nat
    requires search.Sensible()
    decreases t, 1
  {
    match t
    case Pending(m, level) => NumRecords(RecordOf(search, m, level))
    case Written(_, _, _, _, children) => RemainingAll(search, children)
  }

  ghost function RemainingAll(search: Search, tasks: seq<Task>): nat
    requires search.Sensible()
    decreases tasks, 0
  {
    if tasks == [] then 0
    else RemainingAll(search, tasks[..|tasks| - 1]) + Remaining(search, tasks[|tasks| - 1])
  }

  function NumRecords(r: Record): nat
  {
    1 + NumRecordsAll(r.children)
  }

  function NumRecordsAll(records: seq<Record>): nat
  {
    if records == [] then 0 else NumRecordsAll(records[..|records| - 1]) + NumRecords(records[|records| - 1])
  }

  /** The record at the end of a path through the records is pending. */
  predicate PendingAt(tasks: seq<Task>, path: seq<nat>)
  {
    && path != [] && path[0] < |tasks|
    && (if |path| == 1 then tasks[path[0]].Pending?
        else tasks[path[0]].Written? && PendingAt(tasks[path[0]].children, path[1..]))
  }

  /** The records after the pending one at the end of the path was written; no other record is touched. */
  function Step(search: Search, tasks: seq<Task>, path: seq<nat>): (r: seq<Task>)
    requires PendingAt(tasks, path)
    ensures |r| == |tasks|
  {
    var t := tasks[path[0]];
    tasks[path[0] := if |path| == 1 then RunTask(search, t.m, t.level)
                     else t.(children := Step(search, t.children, path[1..]))]
  }

  lemma {:induction false} OneOutcome(search: Search, tasks: seq<Task>, k: nat, t: Task)
    requires search.Sensible() && k < |tasks|
    ensures Outcomes(search, tasks[k := t]) == Outcomes(search, tasks)[k := Outcome(search, t)]
    ensures RemainingAll(search, tasks[k := t])
              == RemainingAll(search, tasks) - Remaining(search, tasks[k]) + Remaining(search, t)
  {
    var n := |tasks| - 1;
    if k == n {
      assert tasks[k := t][..n] == tasks[..n];
    } else {
      assert tasks[k := t][..n] == tasks[..n][k := t];
      OneOutcome(search, tasks[..n], k, t);
    }
  }

  lemma {:induction false} SpawnedRemaining(search: Search, tasks: seq<Task>)
    requires search.Sensible() && forall k :: 0 <= k < |tasks| ==> tasks[k].Pending?
    ensures RemainingAll(search, tasks) == NumRecordsAll(Outcomes(search, tasks))
  {
    hide RecordOf, NumRecords;
    if tasks != [] {
      var n := |tasks| - 1;
      SpawnedRemaining(search, tasks[..n]);
      assert Outcomes(search, tasks)[..n] == Outcomes(search, tasks[..n]);
      assert Outcomes(search, tasks)[n] == Outcome(search, tasks[n]);
    }
  }

  /** One step of any schedule: the final records stay the same and one task less is left. */
  lemma {:induction false} StepOutcome(search: Search, tasks: seq<Task>, path: seq<nat>)
    requires search.Sensible() && PendingAt(tasks, path)
    ensures Outcomes(search, Step(search, tasks, path)) == Outcomes(search, tasks)
    ensures RemainingAll(search, Step(search, tasks, path)) == RemainingAll(search, tasks) - 1
  {
    var k := path[0];
    var t := tasks[k];
    OutcomesAt(search, tasks, k);
    if |path| == 1 {
      var after := RunTask(search, t.m, t.level);
      RunTaskOutcome(search, t.m, t.level);
      OneOutcome(search, tasks, k, after);
      SpawnedRemaining(search, after.children);
    } else {
      StepOutcome(search, t.children, path[1..]);
      OneOutcome(search, tasks, k, t.(children := Step(search, t.children, path[1..])));
    }
  }

  ghost predicate NonePending(tasks: seq<Task>)
  {
    forall path: seq<nat> :: !PendingAt(tasks, path)
  }

  /** With nothing pending, the records are what they will be. */
  ghost function Read(tasks: seq<Task>): seq<Record>
    requires NonePending(tasks)
    decreases tasks
  {
    if tasks == [] then []
    else
      var n := |tasks| - 1;
      NothingPending(tasks);
      var t := tasks[n];
      Read(tasks[..n]) + [Record(t.indexCodelength, t.moduleCodelength, t.leafCodelength, t.queueFlow,
          Read(t.children))]
  }

  lemma {:induction false} NothingPending(tasks: seq<Task>)
    requires NonePending(tasks)
    ensures forall k :: 0 <= k < |tasks| ==> tasks[k].Written? && NonePending(tasks[k].children)
    ensures tasks != [] ==> NonePending(tasks[..|tasks| - 1])
  {
    forall k | 0 <= k < |tasks| ensures tasks[k].Written? && NonePending(tasks[k].children) {
      assert !PendingAt(tasks, [k]);
      forall path: seq<nat> ensures !PendingAt(tasks[k].children, path) {
        assert ([k] + path)[1..] == path;
        assert !PendingAt(tasks, [k] + path);
      }
    }
    if tasks != [] {
      var front := tasks[..|tasks| - 1];
      forall path: seq<nat> ensures !PendingAt(front, path) {
        assert !PendingAt(tasks, path);
      }
    }
  }

  lemma {:induction false} ReadIsOutcome(search: Search, tasks: seq<Task>)
    requires search.Sensible() && NonePending(tasks)
    ensures Read(tasks) == Outcomes(search, tasks)
    decreases tasks
  {
    if tasks != [] {
      NothingPending(tasks);
      ReadIsOutcome(search, tasks[..|tasks| - 1]);
      ReadIsOutcome(search, tasks[|tasks| - 1].children);
    }
  }

  /** Paths to pending tasks, in the order a scheduler may look at them. */
  function FindPending(tasks: seq<Task>): (path: seq<nat>)
    ensures path == [] ==> NonePending(tasks)
    ensures path != [] ==> PendingAt(tasks, path)
    decreases tasks
  {
    if tasks == [] then NoTasks(tasks); []
    else
      var n := |tasks| - 1;
      var front := FindPending(tasks[..n]);
      if front != [] then PendingInFront(tasks, front); front
      else if tasks[n].Pending? then [n]
      else
        var inner := FindPending(tasks[n].children);
        if inner != [] then assert ([n] + inner)[1..] == inner; [n] + inner
        else NoneLeft(tasks); []
  }

  lemma {:induction false} NoTasks(tasks: seq<Task>)
    requires tasks == []
    ensures NonePending(tasks)
  {
  }

  lemma {:induction false} PendingInFront(tasks: seq<Task>, path: seq<nat>)
    requires tasks != [] && PendingAt(tasks[..|tasks| - 1], path)
    ensures PendingAt(tasks, path)
  {
  }

  lemma {:induction false} NoneLeft(tasks: seq<Task>)
    requires tasks != [] && NonePending(tasks[..|tasks| - 1])
    requires tasks[|tasks| - 1].Written? && NonePending(tasks[|tasks| - 1].children)
    ensures NonePending(tasks)
  {
    var n := |tasks| - 1;
    forall path: seq<nat> ensures !PendingAt(tasks, path) {
      if path != [] && path[0] < n {
        assert !PendingAt(tasks[..n], path);
      } else if path != [] {
        assert !PendingAt(tasks[n].children, path[1..]);
      }
    }
  }

  /** Run all tasks, in the order given by any schedule as far as it goes, and in any order after
      that. The records are those of the depth-first recursion, and the number of steps is the same. */
  method RunTasks(search: Search, modules: seq<Module>, startLevel: nat, schedule: seq<seq<nat>>)
    returns (tasks: seq<Task>, steps: nat)
    requires search.Sensible()
    ensures NonePending(tasks)
    ensures |Read(tasks)| == |modules| && forall k :: 0 <= k < |modules| ==>
              Read(tasks)[k] == RecordOf(search, modules[k], startLevel)
    ensures steps == NumRecordsAll(Read(tasks))
  {
    tasks := seq(|modules|, k requires 0 <= k < |modules| => Pending(modules[k], startLevel));
    ghost var start := tasks;
    SpawnedRemaining(search, tasks);
    steps := 0;
    var path := FindPending(tasks);
    while path != []
      invariant if path == [] then NonePending(tasks) else PendingAt(tasks, path)
      invariant Outcomes(search, tasks) == Outcomes(search, start)
      invariant RemainingAll(search, tasks) + steps == RemainingAll(search, start)
      decreases RemainingAll(search, tasks)
    {
      var next := if steps < |schedule| && PendingAt(tasks, schedule[steps]) then schedule[steps] else path;
      StepOutcome(search, tasks, next);
      tasks := Step(search, tasks, next);
      steps := steps + 1;
      path := FindPending(tasks);
    }
    ReadIsOutcome(search, tasks);
    NothingRemains(search, tasks);
    forall k | 0 <= k < |modules| ensures Read(tasks)[k] == RecordOf(search, modules[k], startLevel) {
      OutcomesAt(search, start, k);
    }
  }

  lemma {:induction false} NothingRemains(search: Search, tasks: seq<Task>)
    requires search.Sensible() && NonePending(tasks)
    ensures RemainingAll(search, tasks) == 0
    decreases tasks
  {
    if tasks != [] {
      NothingPending(tasks);
      NothingRemains(search, tasks[..|tasks| - 1]);
      NothingRemains(search, tasks[|tasks| - 1].children);
    }
  }

  // ----- Adding up the records -----

  /** Index and leaf codelengths of all records. */
  function Total(r: Record): real
  {
    r.indexCodelength + r.leafCodelength + TotalAll(r.children)
  }

  function TotalAll(records: seq<Record>): real
  {
    if records == [] then 0.0 else TotalAll(records[..|records| - 1]) + Total(records[|records| - 1])
  }

  function Depth(records: seq<Record>): nat
  {
    if records == [] then 0
    else
      var a, b := Depth(records[..|records| - 1]), 1 + Depth(records[|records| - 1].children);
      if a > b then a else b
  }

  /** The records of the next level, in the order the level-by-level queue would list them. */
  function NextLevel(records: seq<Record>): seq<Record>
  {
    if records == [] then [] else NextLevel(records[..|records| - 1]) + records[|records| - 1].children
  }

  lemma {:induction false} TotalAppend(a: seq<Record>, b: seq<Record>)
    ensures TotalAll(a + b) == TotalAll(a) + TotalAll(b)
    ensures Depth(a + b) == if Depth(a) > Depth(b) then Depth(a) else Depth(b)
  {
    if b == [] {
      assert a + b == a;
    } else {
      var n := |b| - 1;
      assert (a + b)[..|a + b| - 1] == a + b[..n];
      TotalAppend(a, b[..n]);
    }
  }

  /** One level: its own sums, and the records below it. */
  function LevelSum(records: seq<Record>): real
  {
    if records == [] then 0.0
    else
      var last := records[|records| - 1];
      LevelSum(records[..|records| - 1]) + (last.indexCodelength + last.leafCodelength)
  }

  lemma {:induction false} LevelSplits(records: seq<Record>)
    ensures TotalAll(records) == LevelSum(records) + TotalAll(NextLevel(records))
    ensures records != [] ==> Depth(NextLevel(records)) == Depth(records) - 1
    ensures Depth(records) == 0 <==> records == []
  {
    if records != [] {
      var n := |records| - 1;
      LevelSplits(records[..n]);
      TotalAppend(NextLevel(records[..n]), records[n].children);
    }
  }

  /** A record without children has no module codelength, which is what a last level relies on. */
  ghost predicate Finished(r: Record)
  {
    (r.children == [] ==> r.moduleCodelength == 0.0) && forall c :: c in r.children ==> Finished(c)
  }

  lemma {:induction false} RecordsFinished(search: Search, m: Module, level: nat)
    requires search.Sensible()
    ensures Finished(RecordOf(search, m, level))
    decreases search.childDegree(m), 1
  {
    if search.Accepts(m, level) {
      ChildrenFinished(search, m, |search.sub(m).modules|, level + 1);
      assert search.Distributed(m, search.sub(m).modules);
    }
  }

  lemma {:induction false} ChildrenFinished(search: Search, m: Module, n: nat, level: nat)
    requires search.Sensible() && search.childDegree(m) > 2 && |search.sub(m).modules| != 1
              && n <= |search.sub(m).modules|
    ensures forall c :: c in ChildRecords(search, m, n, level) ==> Finished(c)
    decreases search.childDegree(m), 0, n
  {
    if n > 0 {
      SmallerModule(search, m, n - 1);
      ChildrenFinished(search, m, n - 1, level);
      RecordsFinished(search, search.sub(m).modules[n - 1], level);
    }
  }

  lemma {:induction false} NextFinished(records: seq<Record>, c: Record)
    requires (forall r :: r in records ==> Finished(r)) && c in NextLevel(records)
    ensures Finished(c)
  {
    var n := |records| - 1;
    assert Finished(records[n]);
    if c in NextLevel(records[..n]) { NextFinished(records[..n], c); }
  }

  /** Module codelengths of one level: what its sub-partitions cost below their index codebooks. */
  function ModuleSum(records: seq<Record>): real
  {
    if records == [] then 0.0 else ModuleSum(records[..|records| - 1]) + records[|records| - 1].moduleCodelength
  }

  /** The codelengths reported level by level: what is settled with the level, and what its modules cost below. */
  ghost predicate Reported(records: seq<Record>, settled: real, reported: seq<real>)
    decreases |reported|
  {
    reported == []
    || (records != [] && reported[0] == settled + LevelSum(records) + ModuleSum(records)
        && Reported(NextLevel(records), settled + LevelSum(records), reported[1..]))
  }

  /** The records of a level, so many levels below the given ones. */
  function LevelBelow(records: seq<Record>, k: nat): seq<Record>
    decreases k
  {
    if k == 0 then records else LevelBelow(NextLevel(records), k - 1)
  }

  function SettledAt(records: seq<Record>, start: real, k: nat): real
    decreases k
  {
    if k == 0 then start else SettledAt(NextLevel(records), start + LevelSum(records), k - 1)
  }

  lemma {:induction false} ReportedNext(records: seq<Record>, start: real, reported: seq<real>, x: real)
    requires Reported(records, start, reported) && LevelBelow(records, |reported|) != []
    requires x == SettledAt(records, start, |reported|) + LevelSum(LevelBelow(records, |reported|))
                  + ModuleSum(LevelBelow(records, |reported|))
    ensures Reported(records, start, reported + [x])
    ensures LevelBelow(records, |reported| + 1) == NextLevel(LevelBelow(records, |reported|))
    ensures SettledAt(records, start, |reported| + 1)
         == SettledAt(records, start, |reported|) + LevelSum(LevelBelow(records, |reported|))
    decreases |reported|
  {
    if reported != [] {
      ReportedNext(NextLevel(records), start + LevelSum(records), reported[1..], x);
      assert (reported + [x])[1..] == reported[1..] + [x];
    } else {
      assert ([] + [x])[1..] == [];
      assert reported + [x] == [x];
      assert LevelBelow(records, 1) == LevelBelow(NextLevel(records), 0);
      assert SettledAt(records, start, 1) == SettledAt(NextLevel(records), start + LevelSum(records), 0);
    }
  }

  lemma {:induction false} NothingReported(records: seq<Record>, start: real)
    ensures Reported(records, start, []) && LevelBelow(records, 0) == records && SettledAt(records, start, 0) == start
  {
  }

  /** One level: its sums, and the records of the next level. */
  method AddUpLevel(records: seq<Record>)
    returns (sumIndexCodelength: real, sumModuleCodelengths: real, sumLeafCodelength: real, next: seq<Record>)
    requires forall r :: r in records ==> Finished(r)
    ensures sumIndexCodelength + sumLeafCodelength == LevelSum(records)
    ensures sumModuleCodelengths == ModuleSum(records) && next == NextLevel(records)
    ensures next == [] ==> sumModuleCodelengths == 0.0
  {
    sumIndexCodelength, sumModuleCodelengths, sumLeafCodelength, next := 0.0, 0.0, 0.0, [];
    for i := 0 to |records|
      invariant sumIndexCodelength + sumLeafCodelength == LevelSum(records[..i])
      invariant sumModuleCodelengths == ModuleSum(records[..i]) && next == NextLevel(records[..i])
      invariant next == [] ==> sumModuleCodelengths == 0.0
    {
      var record := records[i];
      assert records[..i + 1][..i] == records[..i];
      assert record in records;
      sumIndexCodelength := sumIndexCodelength + record.indexCodelength;
      sumModuleCodelengths := sumModuleCodelengths + record.moduleCodelength;
      sumLeafCodelength := sumLeafCodelength + record.leafCodelength;
      next := next + record.children;
    }
    assert records[..|records|] == records;
  }

  /** Level by level, what is settled grows by the index and leaf codelengths of the level, and what is
      left to improve is replaced; at the end nothing is left and the result is the settled start plus
      the index and leaf codelengths of all records. */
  method AggregateLevels(rootRecords: seq<Record>, start: real, hierarchicalStart: real, startLevel: nat)
    returns (hierarchicalCodelength: real, level: nat, ghost reported: seq<real>)
    requires forall r :: r in rootRecords ==> Finished(r)
    ensures hierarchicalCodelength == if rootRecords == [] then hierarchicalStart else start + TotalAll(rootRecords)
    ensures level == startLevel + Depth(rootRecords)
    ensures |reported| == Depth(rootRecords) && Reported(rootRecords, start, reported)
  {
    hide Reported, LevelBelow, SettledAt, Total, Finished;
    reported := [];
    NothingReported(rootRecords, start);
    var levelRecords, sumConsolidatedCodelength := rootRecords, start;
    hierarchicalCodelength, level := hierarchicalStart, startLevel;
    ghost var left := 0.0;
    LevelSplits(levelRecords);
    while levelRecords != []
      invariant forall r :: r in levelRecords ==> Finished(r)
      invariant sumConsolidatedCodelength + TotalAll(levelRecords) == start + TotalAll(rootRecords)
      invariant level + Depth(levelRecords) == startLevel + Depth(rootRecords)
      invariant Depth(levelRecords) == 0 <==> levelRecords == []
      invariant level == startLevel ==> levelRecords == rootRecords && hierarchicalCodelength == hierarchicalStart
      invariant level > startLevel ==> rootRecords != [] && hierarchicalCodelength == sumConsolidatedCodelength + left
      invariant levelRecords == [] ==> left == 0.0
      invariant level == startLevel + |reported| && Reported(rootRecords, start, reported)
      invariant levelRecords == LevelBelow(rootRecords, |reported|)
      invariant sumConsolidatedCodelength == SettledAt(rootRecords, start, |reported|)
      decreases Depth(levelRecords)
    {
      LevelSplits(levelRecords);
      var sumIndexCodelength, sumModuleCodelengths, sumLeafCodelength, nextLevelRecords := AddUpLevel(levelRecords);
      var leftToImprove := sumModuleCodelengths;
      sumConsolidatedCodelength := sumConsolidatedCodelength + (sumIndexCodelength + sumLeafCodelength);
      hierarchicalCodelength := sumConsolidatedCodelength + leftToImprove;
      left := leftToImprove;
      ReportedNext(rootRecords, start, reported, hierarchicalCodelength);
      reported := reported + [hierarchicalCodelength];
      forall c | c in nextLevelRecords ensures Finished(c) { NextFinished(levelRecords, c); }
      LevelSplits(nextLevelRecords);
      levelRecords := nextLevelRecords;
      level := level + 1;
    }
  }

  // ----- The result is never longer than the start -----

  /** What a sub-search reports is its index codelength and the codelengths of the modules it found. */
  ghost predicate Consistent(search: Search)
  {
    forall m: Module :: search.childDegree(m) > 2 ==>
      search.sub(m).hierarchicalCodelength == search.sub(m).indexCodelength + search.Codelengths(search.sub(m).modules)
  }

  /** Number of sub-partitions that were accepted. */
  function NumAccepted(r: Record): nat
  {
    (if r.children == [] then 0 else 1) + NumAcceptedAll(r.children)
  }

  function NumAcceptedAll(records: seq<Record>): nat
  {
    if records == [] then 0 else NumAcceptedAll(records[..|records| - 1]) + NumAccepted(records[|records| - 1])
  }

  lemma {:induction false} NoBias(search: Search, depth: nat)
    requires search.Unbiased()
    ensures search.Bias(depth) == 0.0
  {
  }

  /** What so many accepted sub-partitions save at least. */
  function AcceptedSaving(numAccepted: nat, threshold: real): real
  {
    numAccepted as real * threshold
  }

  lemma {:induction false} AddSaved(a: nat, b: nat, threshold: real)
    ensures AcceptedSaving(a + b, threshold) == AcceptedSaving(a, threshold) + AcceptedSaving(b, threshold)
    ensures AcceptedSaving(0, threshold) == 0.0 && AcceptedSaving(1, threshold) == threshold
  {
    assert (a + b) as real == a as real + b as real;
  }

  /** Every accepted sub-partition saves more than the threshold. */
  lemma {:induction false} RecordSaves(search: Search, m: Module, level: nat)
    requires search.Sensible() && Consistent(search) && search.Unbiased()
    ensures Total(RecordOf(search, m, level))
         <= search.codelength(m) - AcceptedSaving(NumAccepted(RecordOf(search, m, level)),
             search.minimumCodelengthImprovement)
    decreases search.childDegree(m), 1
  {
    hide AcceptedSaving;
    AddSaved(0, 0, search.minimumCodelengthImprovement);
    if search.Accepts(m, level) {
      var s, r := search.sub(m), RecordOf(search, m, level);
      NoBias(search, level + 1);
      ChildrenSave(search, m, |s.modules|, level + 1);
      assert s.modules[..|s.modules|] == s.modules;
      assert search.Distributed(m, s.modules);
      AddSaved(1, NumAcceptedAll(r.children), search.minimumCodelengthImprovement);
    }
  }

  /** A sub-partition that is not trivial and saves more than the threshold is kept, and the records of the module are
      no longer than it. */
  lemma {:induction false} GoodSubIsKept(search: Search, m: Module, level: nat)
    requires search.Sensible() && Consistent(search) && search.Unbiased()
    requires search.minimumCodelengthImprovement >= 0.0 && search.childDegree(m) > 2
    requires 1 < |search.sub(m).modules| < search.childDegree(m)
    requires search.sub(m).hierarchicalCodelength < search.codelength(m) - search.minimumCodelengthImprovement
    ensures |RecordOf(search, m, level).children| == |search.sub(m).modules|
    ensures Total(RecordOf(search, m, level)) <= search.sub(m).hierarchicalCodelength
  {
    hide AcceptedSaving;
    var s, r := search.sub(m), RecordOf(search, m, level);
    NoBias(search, level + 1);
    assert search.Accepts(m, level);
    ChildrenSave(search, m, |s.modules|, level + 1);
    assert s.modules[..|s.modules|] == s.modules;
    SavingNotNegative(NumAcceptedAll(r.children), search.minimumCodelengthImprovement);
  }

  lemma {:induction false} SavingNotNegative(n: nat, threshold: real)
    requires threshold >= 0.0
    ensures AcceptedSaving(n, threshold) >= 0.0
  {
  }

  lemma {:induction false} ChildrenSave(search: Search, m: Module, n: nat, level: nat)
    requires search.Sensible() && Consistent(search) && search.Unbiased()
    requires search.childDegree(m) > 2 && |search.sub(m).modules| != 1 && n <= |search.sub(m).modules|
    ensures TotalAll(ChildRecords(search, m, n, level))
         <= search.Codelengths(search.sub(m).modules[..n])
            - AcceptedSaving(NumAcceptedAll(ChildRecords(search, m, n, level)), search.minimumCodelengthImprovement)
    decreases search.childDegree(m), 0, n
  {
    hide Total, NumAccepted, RecordOf, AcceptedSaving, Consistent, Search.Sensible;
    AddSaved(0, 0, search.minimumCodelengthImprovement);
    if n > 0 {
      var modules, records := search.sub(m).modules, ChildRecords(search, m, n, level);
      SmallerModule(search, m, n - 1);
      ChildrenSave(search, m, n - 1, level);
      RecordSaves(search, modules[n - 1], level);
      assert modules[..n][..n - 1] == modules[..n - 1];
      assert records[..n - 1] == ChildRecords(search, m, n - 1, level);
      AddSaved(NumAcceptedAll(records[..n - 1]), NumAccepted(records[n - 1]), search.minimumCodelengthImprovement);
    }
  }

  lemma {:induction false} RecordsSave(search: Search, modules: seq<Module>, level: nat, records: seq<Record>)
    requires search.Sensible() && Consistent(search) && search.Unbiased() && |records| == |modules|
    requires forall k :: 0 <= k < |modules| ==> records[k] == RecordOf(search, modules[k], level)
    ensures TotalAll(records)
         <= search.Codelengths(modules) - AcceptedSaving(NumAcceptedAll(records), search.minimumCodelengthImprovement)
  {
    hide Total, NumAccepted, RecordOf, AcceptedSaving, Consistent, Search.Sensible;
    AddSaved(0, 0, search.minimumCodelengthImprovement);
    if modules != [] {
      var n := |modules| - 1;
      RecordsSave(search, modules[..n], level, records[..n]);
      RecordSaves(search, modules[n], level);
      AddSaved(NumAcceptedAll(records[..n]), NumAccepted(records[n]), search.minimumCodelengthImprovement);
    }
  }

  /** What the queued modules cost before the recursion. */
  method QueuedCodelength(search: Search, queue: seq<Module>) returns (moduleCodelength: real)
    ensures moduleCodelength == search.Codelengths(queue)
  {
    moduleCodelength := 0.0;
    for i := 0 to |queue|
      invariant moduleCodelength == search.Codelengths(queue[..i])
    {
      assert queue[..i + 1][..i] == queue[..i];
      moduleCodelength := moduleCodelength + search.codelength(queue[i]);
    }
    assert queue[..|queue|] == queue;
  }

  /** The whole recursion from a queue of modules, top modules or leaf modules: whatever the schedule,
      the hierarchical codelength ends as what is settled above the queue plus the index and leaf
      codelengths of all records. With the depth bias off it never exceeds the start, and every
      accepted sub-partition has saved at least the threshold. */
  method RecursivelyPartition(search: Search, queue: seq<Module>, startCodelength: real, startLevel: nat,
                              schedule: seq<seq<nat>>)
    returns (hierarchicalCodelength: real, level: nat, ghost reported: seq<real>)
    requires search.Sensible()
    ensures Reported(RecordsOf(search, queue, startLevel), startCodelength - search.Codelengths(queue), reported)
    ensures |reported| == Depth(RecordsOf(search, queue, startLevel))
    ensures hierarchicalCodelength
         == startCodelength - search.Codelengths(queue) + TotalAll(RecordsOf(search, queue, startLevel))
    ensures level == startLevel + Depth(RecordsOf(search, queue, startLevel))
    ensures Consistent(search) && search.Bias(startLevel + 1) <= search.minimumCodelengthImprovement ==>
              hierarchicalCodelength <= startCodelength
    ensures Consistent(search) && search.Unbiased() ==>
              hierarchicalCodelength
              <= startCodelength - AcceptedSaving(NumAcceptedAll(RecordsOf(search, queue, startLevel)),
                  search.minimumCodelengthImprovement)
  {
    hide AcceptedSaving, RecordOf, Read, Finished, NonePending, Consistent, Search.Sensible, Search.Codelengths,
         TotalAll, NumAcceptedAll, Depth;
    var moduleCodelength := QueuedCodelength(search, queue);
    var tasks, steps := RunTasks(search, queue, startLevel, schedule);
    ghost var records := RecordsOf(search, queue, startLevel);
    assert Read(tasks) == records;
    var written := ReadTasks(tasks);
    AllFinished(search, queue, startLevel, records);
    if Consistent(search) && search.Unbiased() {
      RecordsSave(search, queue, startLevel, records);
    }
    if Consistent(search) && search.Bias(startLevel + 1) <= search.minimumCodelengthImprovement {
      SmallBias(search, startLevel);
      RecordsShort(search, queue, startLevel, records);
    }
    hierarchicalCodelength, level, reported :=
        AggregateLevels(written, startCodelength - moduleCodelength, startCodelength, startLevel);
  }

  lemma {:induction false} AllFinished(search: Search, queue: seq<Module>, level: nat, records: seq<Record>)
    requires search.Sensible() && |records| == |queue|
    requires forall k :: 0 <= k < |queue| ==> records[k] == RecordOf(search, queue[k], level)
    ensures forall r :: r in records ==> Finished(r)
    ensures queue == [] ==> TotalAll(records) == 0.0 && search.Codelengths(queue) == 0.0
  {
    forall r | r in records ensures Finished(r) {
      var k :| 0 <= k < |records| && records[k] == r;
      RecordsFinished(search, queue[k], level);
    }
  }

  /** The records of finished tasks. */
  function ReadTasks(tasks: seq<Task>): (r: seq<Record>)
    ensures NonePending(tasks) ==> r == Read(tasks)
    decreases tasks
  {
    if tasks == [] then []
    else
      var n := |tasks| - 1;
      var t := tasks[n];
      ReadLast(tasks);
      if t.Pending? then ReadTasks(tasks[..n])
      else
        ReadTasks(tasks[..n]) + [Record(t.indexCodelength, t.moduleCodelength, t.leafCodelength, t.queueFlow,
            ReadTasks(t.children))]
  }

  lemma {:induction false} ReadLast(tasks: seq<Task>)
    requires tasks != []
    ensures NonePending(tasks) ==>
              && NonePending(tasks[..|tasks| - 1])
              && tasks[|tasks| - 1].Written? && NonePending(tasks[|tasks| - 1].children)
  {
    if NonePending(tasks) { NothingPending(tasks); }
  }

  // ----- When the result can be longer than the start -----

  /** Whatever is accepted at the level or below is no longer than what it replaces. */
  ghost predicate AcceptsShort(search: Search, level: nat)
  {
    forall m: Module, l: nat :: l >= level && search.Accepts(m, l) ==>
      search.sub(m).hierarchicalCodelength <= search.codelength(m)
  }

  /** Then the records are no longer than the module. */
  lemma {:induction false} RecordShort(search: Search, m: Module, level: nat)
    requires search.Sensible() && Consistent(search) && AcceptsShort(search, level)
    ensures Total(RecordOf(search, m, level)) <= search.codelength(m)
    decreases search.childDegree(m), 1
  {
    if search.Accepts(m, level) {
      var s := search.sub(m);
      ChildrenShort(search, m, |s.modules|, level + 1);
      assert s.modules[..|s.modules|] == s.modules;
      assert search.Distributed(m, s.modules);
    }
  }

  lemma {:induction false} ChildrenShort(search: Search, m: Module, n: nat, level: nat)
    requires search.Sensible() && Consistent(search) && AcceptsShort(search, level)
    requires search.childDegree(m) > 2 && |search.sub(m).modules| != 1 && n <= |search.sub(m).modules|
    ensures TotalAll(ChildRecords(search, m, n, level)) <= search.Codelengths(search.sub(m).modules[..n])
    decreases search.childDegree(m), 0, n
  {
    hide Total, RecordOf, Consistent, Search.Sensible, AcceptsShort;
    if n > 0 {
      var modules, records := search.sub(m).modules, ChildRecords(search, m, n, level);
      SmallerModule(search, m, n - 1);
      ChildrenShort(search, m, n - 1, level);
      RecordShort(search, modules[n - 1], level);
      assert modules[..n][..n - 1] == modules[..n - 1];
      assert records[..n - 1] == ChildRecords(search, m, n - 1, level);
    }
  }

  lemma {:induction false} RecordsShort(search: Search, modules: seq<Module>, level: nat, records: seq<Record>)
    requires search.Sensible() && Consistent(search) && AcceptsShort(search, level) && |records| == |modules|
    requires forall k :: 0 <= k < |modules| ==> records[k] == RecordOf(search, modules[k], level)
    ensures TotalAll(records) <= search.Codelengths(modules)
  {
    hide Total, RecordOf, Consistent, Search.Sensible, AcceptsShort;
    if modules != [] {
      var n := |modules| - 1;
      RecordsShort(search, modules[..n], level, records[..n]);
      RecordShort(search, modules[n], level);
    }
  }

  /** The bias falls with the depth, so below a level where it is no larger than the threshold nothing longer
      is accepted. */
  lemma {:induction false} SmallBias(search: Search, level: nat)
    requires search.Bias(level + 1) <= search.minimumCodelengthImprovement
    ensures AcceptsShort(search, level)
  {
    forall m: Module, l: nat | l >= level && search.Accepts(m, l)
      ensures search.sub(m).hierarchicalCodelength <= search.codelength(m)
    {
      BiasFalls(search, level + 1, l + 1);
    }
  }

  lemma {:induction false} BiasFalls(search: Search, d: nat, e: nat)
    requires d <= e
    ensures search.Bias(e) <= search.Bias(d)
  {
    if !search.Unbiased() {
      var target, strength := search.preferredNumberOfLevels, search.preferredNumberOfLevelsStrength;
      var x, y := (target - e) as real + 0.5, (target - d) as real + 0.5;
      assert x <= y;
      BiasGrows(strength, x, y);
    }
  }

  lemma {:induction false} BiasGrows(strength: real, x: real, y: real)
    requires strength > 0.0 && x <= y
    ensures strength * x / LN2 <= strength * y / LN2
  {
    assert strength * x <= strength * y;
  }

  ghost predicate SameSettings(search: Search, settings: Search)
  {
    && search.minimumCodelengthImprovement == settings.minimumCodelengthImprovement
    && search.twoLevel == settings.twoLevel
    && search.preferredNumberOfLevels == settings.preferredNumberOfLevels
    && search.preferredNumberOfLevelsStrength == settings.preferredNumberOfLevelsStrength
  }

  /** Whatever module the recursion starts from, what it finds there is no longer than the module. */
  ghost predicate NeverLonger(search: Search, level: nat)
    requires search.Sensible()
  {
    forall m: Module :: Total(RecordOf(search, m, level)) <= search.codelength(m)
  }
}
