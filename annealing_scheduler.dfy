/** The simulated-annealing scheduler: a random initial assignment of tasks to
    processor queues that respects dependencies, the neighbour move that swaps two
    tasks, the end-time rating, and the annealing loop that keeps the best
    solution. Random draws are parameters. */
module AnnealingScheduler {
  import opened Collections
  import opened EndTimes
  import opened AnnealingTask

  /** One queue of tasks per processor, in execution order. */
  type Solution = seq<seq<Task>>

  /** The rating input of one queue: each task with its current duration and dependencies. */
  function JobQueue(q: seq<Task>): (r: seq<Job<Task>>)
    reads q
    ensures |r| == |q|
    ensures forall i :: 0 <= i < |q| ==> r[i] == Job(q[i], q[i].duration, q[i].dependencies)
  {
    seq(|q|, i requires 0 <= i < |q| reads q => Job(q[i], q[i].duration, q[i].dependencies))
  }

  /** The rating input of a whole solution. */
  function JobQueues(s: Solution): (r: Queues<Task>)
    reads Elements(s)
    ensures |r| == |s|
    ensures forall p :: 0 <= p < |s| ==> r[p] == JobQueue(s[p])
    decreases |s|
  {
    if s == [] then []
    else
      assert forall p :: 1 <= p < |s| ==> s[1..][p - 1] == s[p];
      assert forall i :: 0 <= i < |s[0]| ==> s[0][i] in Elements(s);
      [JobQueue(s[0])] + JobQueues(s[1..])
  }

  // ---------------------------------------------------------------------------
  // The initial solution.

  /** `solution.Any(processor => processor.Contains(task))`. */
  function IsTaskAssigned(solution: Solution, task: Task): (r: bool)
    ensures r <==> exists p :: 0 <= p < |solution| && task in solution[p]
    ensures r <==> task in Flatten(solution)
    decreases |solution|
  {
    FlattenMember(solution, task);
    if solution == [] then false
    else
      assert forall p :: 1 <= p < |solution| ==> solution[1..][p - 1] == solution[p];
      task in solution[0] || IsTaskAssigned(solution[1..], task)
  }

  /** Every dependency of `task` already has a processor. */
  predicate DependenciesSatisfied(solution: Solution, task: Task)
    reads task
  {
    forall d :: d in task.dependencies ==> IsTaskAssigned(solution, d)
  }

  /** One iteration's random draws: `random.Next(unassignedTasks.Count)` and
      `random.Next(numProcessors)`, as raw numbers reduced into range. */
  datatype PlacementDraw = PlacementDraw(task: nat, processor: nat)

  /** How the initial-solution loop ends. The draws are finite, so a run can also
      stop with tasks still unassigned, where the program would keep drawing. */
  datatype InitialOutcome =
    | Built(solution: Solution)
    | Unfinished(partial: Solution, unassigned: seq<Task>)
    | Failed(error: Exception)

  /** `numProcessors` empty queues. */
  function EmptyQueues(n: nat): (r: Solution)
    ensures |r| == n && forall p :: 0 <= p < n ==> r[p] == []
  {
    seq(n, _ => [])
  }

  /** The initial-solution loop from a given state, one draw per iteration: pick a
      random unassigned task and a random processor; when every dependency of the
      task is assigned, append it to that processor and drop it from the unassigned
      list. Indexing a processor of an empty solution throws. */
  function Place(solution: Solution, unassigned: seq<Task>, draws: seq<PlacementDraw>): InitialOutcome
    reads set t | t in unassigned
    decreases |draws|
  {
    if unassigned == [] then Built(solution)
    else if draws == [] then Unfinished(solution, unassigned)
    else
      var task := unassigned[draws[0].task % |unassigned|];
      if |solution| == 0 then Failed(ArgumentOutOfRange)
      else if DependenciesSatisfied(solution, task) then
        var p := draws[0].processor % |solution|;
        var rest := RemoveFirst(unassigned, task);
        Place(solution[p := solution[p] + [task]], rest, draws[1..])
      else
        Place(solution, unassigned, draws[1..])
  }

  /** One iteration of GetInitialSolution's loop with at least one processor:
      the drawn task is appended to the drawn processor when its dependencies
      are all assigned, and is then dropped from the unassigned list. */
  method PlacementRound(solution: Solution, unassigned: seq<Task>, draw: PlacementDraw, ghost later: seq<PlacementDraw>)
    returns (nextSolution: Solution, nextUnassigned: seq<Task>)
    requires unassigned != [] && |solution| > 0
    ensures Place(nextSolution, nextUnassigned, later) == Place(solution, unassigned, [draw] + later)
    ensures forall t :: t in nextUnassigned ==> t in unassigned
  {
    assert ([draw] + later)[0] == draw && ([draw] + later)[1..] == later;
    var taskIndex := draw.task % |unassigned|;
    var task := unassigned[taskIndex];
    var processorIndex := draw.processor % |solution|;
    var dependenciesSatisfied := forall d :: d in task.dependencies ==> IsTaskAssigned(solution, d);
    nextSolution, nextUnassigned := solution, unassigned;
    if dependenciesSatisfied {
      nextSolution := solution[processorIndex := solution[processorIndex] + [task]];
      nextUnassigned := RemoveFirst(unassigned, task);
    }
  }

  /** GetInitialSolution, with the random draws as a parameter. */
  method GetInitialSolution(tasks: seq<Task>, numProcessors: int, draws: seq<PlacementDraw>)
    returns (r: InitialOutcome)
    ensures numProcessors < 0 ==> r == Failed(ArgumentOutOfRange)
    ensures numProcessors >= 0 ==> r == Place(EmptyQueues(numProcessors), tasks, draws)
  {
    if numProcessors < 0 {
      // Enumerable.Range rejects a negative count.
      return Failed(ArgumentOutOfRange);
    }
    var initialSolution := EmptyQueues(numProcessors);
    var unassignedTasks := tasks;
    ghost var outcome := Place(initialSolution, unassignedTasks, draws);
    var k := 0;
    assert draws[k..] == draws;
    while |unassignedTasks| > 0 && k < |draws|
      invariant 0 <= k <= |draws|
      invariant Place(initialSolution, unassignedTasks, draws[k..]) == outcome
      decreases |draws| - k
    {
      if |initialSolution| == 0 {
        return Failed(ArgumentOutOfRange);
      }
      assert draws[k..] == [draws[k]] + draws[k + 1..];
      initialSolution, unassignedTasks := PlacementRound(initialSolution, unassignedTasks, draws[k], draws[k + 1..]);
      k := k + 1;
    }
    if |unassignedTasks| == 0 {
      return Built(initialSolution);
    }
    assert draws[k..] == [];
    return Unfinished(initialSolution, unassignedTasks);
  }

  /** Every dependency of a placed task is placed too. */
  ghost predicate DependenciesPlaced(solution: Solution)
    reads Elements(solution)
  {
    forall p, i, d :: 0 <= p < |solution| && 0 <= i < |solution[p]| && d in solution[p][i].dependencies
      ==> IsTaskAssigned(solution, d)
  }

  /** In each queue a task comes after every dependency that shares its queue. */
  ghost predicate QueueOrder(solution: Solution)
    reads Elements(solution)
  {
    forall p, i, j ::
      (0 <= p < |solution| && 0 <= i < |solution[p]| && 0 <= j < |solution[p]| &&
       solution[p][j] in solution[p][i].dependencies) ==> j < i
  }

  /** What every state of the initial-solution loop satisfies: the placed and the
      unassigned tasks together are the input tasks, placed tasks have their
      dependencies placed, and (for duplicate-free input) queues respect dependencies. */
  ghost predicate PlacementInvariant(solution: Solution, unassigned: seq<Task>, tasks: seq<Task>)
    reads Elements(solution)
  {
    multiset(Flatten(solution)) + multiset(unassigned) == multiset(tasks) &&
    DependenciesPlaced(solution) &&
    (NoDuplicates(tasks) ==> QueueOrder(solution))
  }

  /** One successful iteration keeps the invariant. */
  lemma PlaceStep(solution: Solution, unassigned: seq<Task>, tasks: seq<Task>, task: Task, p: int)
    requires PlacementInvariant(solution, unassigned, tasks)
    requires task in unassigned && DependenciesSatisfied(solution, task) && 0 <= p < |solution|
    ensures PlacementInvariant(solution[p := solution[p] + [task]], RemoveFirst(unassigned, task), tasks)
  {
    var s': Solution := solution[p := solution[p] + [task]];
    FlattenAppend(solution, p, task);
    AppendKeepsPlaced(solution, task, p);
    if NoDuplicates(tasks) {
      NoDuplicatesCount(tasks, task);
      assert multiset(unassigned)[task] >= 1;
      assert task !in Flatten(solution);
      AppendKeepsOrder(solution, task, p);
    }
  }

  /** Appending a ready task keeps every placed task's dependencies placed. */
  lemma AppendKeepsPlaced(solution: Solution, task: Task, p: int)
    requires DependenciesPlaced(solution) && DependenciesSatisfied(solution, task) && 0 <= p < |solution|
    ensures DependenciesPlaced(solution[p := solution[p] + [task]])
  {
    var s': Solution := solution[p := solution[p] + [task]];
    FlattenAppend(solution, p, task);
    forall q, i, d | 0 <= q < |s'| && 0 <= i < |s'[q]| && d in s'[q][i].dependencies
      ensures IsTaskAssigned(s', d)
    {
      if q == p && i == |solution[p]| {
        assert s'[q][i] == task;
      } else {
        assert s'[q][i] == solution[q][i];
      }
      assert IsTaskAssigned(solution, d);
      assert multiset(Flatten(solution))[d] > 0;
      assert multiset(Flatten(s'))[d] > 0;
      assert d in Flatten(s');
    }
  }

  /** Appending a ready task that was not yet placed keeps each queue in dependency order. */
  lemma AppendKeepsOrder(solution: Solution, task: Task, p: int)
    requires DependenciesPlaced(solution) && QueueOrder(solution) && DependenciesSatisfied(solution, task)
    requires 0 <= p < |solution| && task !in Flatten(solution)
    ensures QueueOrder(solution[p := solution[p] + [task]])
  {
    var s': Solution := solution[p := solution[p] + [task]];
    var last := |solution[p]|;
    assert !IsTaskAssigned(solution, task);
    forall i | 0 <= i < |s'[p]| ensures task !in s'[p][i].dependencies {
      if i == last {
        assert s'[p][i] == task;
      } else {
        assert s'[p][i] == solution[p][i];
      }
    }
    forall q, i, j | 0 <= q < |s'| && 0 <= i < |s'[q]| && 0 <= j < |s'[q]| && s'[q][j] in s'[q][i].dependencies
      ensures j < i
    {
      if q != p || (i != last && j != last) {
        assert s'[q][i] == solution[q][i] && s'[q][j] == solution[q][j];
      }
    }
  }

  /** What the loop guarantees from any state satisfying the invariant. */
  lemma {:induction false} PlaceFacts(solution: Solution, unassigned: seq<Task>, draws: seq<PlacementDraw>, tasks: seq<Task>)
    requires PlacementInvariant(solution, unassigned, tasks)
    ensures var r := Place(solution, unassigned, draws);
      (r.Failed? <==> |solution| == 0 && unassigned != [] && draws != []) &&
      (r.Failed? ==> r.error == ArgumentOutOfRange) &&
      (r.Built? ==> |r.solution| == |solution| && PlacementInvariant(r.solution, [], tasks)) &&
      (r.Unfinished? ==> |r.partial| == |solution| && r.unassigned != [] &&
                         PlacementInvariant(r.partial, r.unassigned, tasks))
    decreases |draws|
  {
    if unassigned != [] && draws != [] && |solution| > 0 {
      var task := unassigned[draws[0].task % |unassigned|];
      if DependenciesSatisfied(solution, task) {
        var p := draws[0].processor % |solution|;
        PlaceStep(solution, unassigned, tasks, task, p);
        PlaceFacts(solution[p := solution[p] + [task]], RemoveFirst(unassigned, task), draws[1..], tasks);
      } else {
        PlaceFacts(solution, unassigned, draws[1..], tasks);
      }
    }
  }

  /** A built initial solution has one queue per processor and holds exactly the
      input tasks (with multiplicity); every dependency of a task is one of the
      input tasks and is placed; and for duplicate-free input each queue lists a
      task after its dependencies in that queue. A run fails exactly when there
      are no processors but a task and a draw. */
  lemma InitialSolutionProperties(tasks: seq<Task>, numProcessors: nat, draws: seq<PlacementDraw>)
    ensures var r := Place(EmptyQueues(numProcessors), tasks, draws);
      (r.Failed? <==> numProcessors == 0 && tasks != [] && draws != []) &&
      (r.Failed? ==> r.error == ArgumentOutOfRange) &&
      (r.Built? ==> |r.solution| == numProcessors && multiset(Flatten(r.solution)) == multiset(tasks) &&
                    DependenciesPlaced(r.solution) && (NoDuplicates(tasks) ==> QueueOrder(r.solution))) &&
      (r.Built? ==> forall t, d :: t in tasks && d in t.dependencies ==> d in tasks)
  {
    var e := EmptyQueues(numProcessors);
    FlattenEmpty(e);
    assert PlacementInvariant(e, tasks, tasks);
    PlaceFacts(e, tasks, draws, tasks);
    var r := Place(e, tasks, draws);
    if r.Built? {
      DependenciesAmongTasks(r.solution, tasks);
    }
  }

  /** When the queues hold exactly `tasks` and every placed task has its dependencies
      placed, the dependencies of the tasks are themselves among the tasks. */
  lemma DependenciesAmongTasks(s: Solution, tasks: seq<Task>)
    requires multiset(Flatten(s)) == multiset(tasks) && DependenciesPlaced(s)
    ensures forall t, d :: t in tasks && d in t.dependencies ==> d in tasks
  {
    forall t, d | t in tasks && d in t.dependencies ensures d in tasks {
      assert multiset(tasks)[t] > 0;
      assert t in Flatten(s);
      FlattenMember(s, t);
      var p :| 0 <= p < |s| && t in s[p];
      var i :| 0 <= i < |s[p]| && s[p][i] == t;
      assert IsTaskAssigned(s, d);
      assert multiset(Flatten(s))[d] > 0;
    }
  }

  /** The draw that always picks the first unassigned task and processor 0. */
  function FirstChoices(n: nat): (r: seq<PlacementDraw>)
    ensures |r| == n && forall k :: 0 <= k < n ==> r[k] == PlacementDraw(0, 0)
  {
    seq(n, _ => PlacementDraw(0, 0))
  }

  /** Every dependency of each task appears earlier in the list. */
  predicate TopologicallyOrdered(tasks: seq<Task>)
    reads set t | t in tasks
  {
    forall k, d :: 0 <= k < |tasks| && d in tasks[k].dependencies ==> d in tasks[..k]
  }

  /** The loop can finish: with at least one processor and the tasks listed after
      their dependencies, always drawing the first unassigned task builds a
      solution after exactly one draw per task. */
  lemma TopologicalOrderIsPlaced(tasks: seq<Task>, numProcessors: nat)
    requires numProcessors > 0 && TopologicallyOrdered(tasks)
    ensures Place(EmptyQueues(numProcessors), tasks, FirstChoices(|tasks|)).Built?
  {
    var e := EmptyQueues(numProcessors);
    FlattenEmpty(e);
    PlaceInOrder(e, tasks, 0);
    assert tasks[0..] == tasks;
  }

  lemma {:induction false} PlaceInOrder(solution: Solution, tasks: seq<Task>, k: nat)
    requires k <= |tasks| && |solution| > 0 && TopologicallyOrdered(tasks)
    requires multiset(Flatten(solution)) == multiset(tasks[..k])
    ensures Place(solution, tasks[k..], FirstChoices(|tasks| - k)).Built?
    decreases |tasks| - k
  {
    if k < |tasks| {
      var s' := solution[0 := solution[0] + [tasks[k]]];
      OrderedTaskIsReady(solution, tasks, k);
      PlaceInOrderStep(solution, tasks, k);
      PlacedPrefix(solution, tasks, k);
      PlaceInOrder(s', tasks, k + 1);
    }
  }

  /** The first-choice draw places a ready next task on processor 0. */
  lemma PlaceInOrderStep(solution: Solution, tasks: seq<Task>, k: nat)
    requires k < |tasks| && |solution| > 0 && DependenciesSatisfied(solution, tasks[k])
    ensures Place(solution, tasks[k..], FirstChoices(|tasks| - k)) ==
            Place(solution[0 := solution[0] + [tasks[k]]], tasks[k + 1..], FirstChoices(|tasks| - (k + 1)))
  {
    var draws := FirstChoices(|tasks| - k);
    assert tasks[k..][0] == tasks[k] && tasks[k..][1..] == tasks[k + 1..];
    assert draws[1..] == FirstChoices(|tasks| - (k + 1));
    PlaceFirst(solution, tasks[k..], draws);
  }

  lemma PlacedPrefix(solution: Solution, tasks: seq<Task>, k: nat)
    requires k < |tasks| && |solution| > 0
    requires multiset(Flatten(solution)) == multiset(tasks[..k])
    ensures multiset(Flatten(solution[0 := solution[0] + [tasks[k]]])) == multiset(tasks[..k + 1])
  {
    FlattenAppend(solution, 0, tasks[k]);
    assert tasks[..k + 1] == tasks[..k] + [tasks[k]];
  }

  /** The next task of a dependency-ordered list is ready once its predecessors are placed. */
  lemma OrderedTaskIsReady(solution: Solution, tasks: seq<Task>, k: nat)
    requires k < |tasks| && TopologicallyOrdered(tasks)
    requires multiset(Flatten(solution)) == multiset(tasks[..k])
    ensures DependenciesSatisfied(solution, tasks[k])
  {
    forall d | d in tasks[k].dependencies ensures IsTaskAssigned(solution, d) {
      assert d in tasks[..k];
      assert multiset(tasks[..k])[d] > 0;
    }
  }

  /** One iteration of the loop with the draw (0, 0) on a ready first task. */
  lemma PlaceFirst(solution: Solution, unassigned: seq<Task>, draws: seq<PlacementDraw>)
    requires unassigned != [] && draws != [] && |solution| > 0
    requires draws[0] == PlacementDraw(0, 0)
    requires DependenciesSatisfied(solution, unassigned[0])
    ensures Place(solution, unassigned, draws) ==
            Place(solution[0 := solution[0] + [unassigned[0]]], unassigned[1..], draws[1..])
  {
    assert RemoveFirst(unassigned, unassigned[0]) == unassigned[1..];
  }

  // ---------------------------------------------------------------------------
  // The rating.

  /** CalculateEndTime: the end-time recurrence over the solution's queues, then
      the largest recorded end time of a scheduled task. */
  method CalculateEndTime(solution: Solution) returns (r: Result<int>)
    ensures r == EndTime(JobQueues(solution))
    ensures r.Threw? <==> Flatten(solution) == []
  {
    ghost var s := JobQueues(solution);
    var taskEndTime: map<Task, int> := map[];
    var p := 0;
    while p < |solution|
      invariant 0 <= p <= |solution|
      invariant RunAll(taskEndTime, s[p..]) == RunAll(map[], s)
    {
      var processor := solution[p];
      ghost var atStart := taskEndTime;
      var endTime := 0;
      var i := 0;
      while i < |processor|
        invariant 0 <= i <= |processor|
        invariant RunQueue(taskEndTime, endTime, s[p][i..]) == RunQueue(atStart, 0, s[p])
      {
        var task := processor[i];
        ghost var before, start := taskEndTime, endTime;
        if task !in taskEndTime {
          taskEndTime := taskEndTime[task := 0];
        }
        ghost var entered := taskEndTime;
        var dependenciesEndTime := if |task.dependencies| > 0 then DependenciesEnd(taskEndTime, task.dependencies) else 0;
        var taskStartTime := Max(endTime, dependenciesEndTime);
        var taskEndTimeValue := taskStartTime + task.duration;
        assert s[p][i] == Job(task, task.duration, task.dependencies);
        QueueLoopStep(atStart, before, start, s[p], i, task, entered, dependenciesEndTime, taskEndTimeValue);
        taskEndTime := taskEndTime[task := taskEndTimeValue];
        endTime := taskEndTimeValue;
        i := i + 1;
      }
      assert s[p][i..] == [];
      AllStep(atStart, s[p..]);
      assert s[p..][1..] == s[p + 1..];
      p := p + 1;
    }
    assert s[p..] == [];
    assert s == JobQueues(solution);
    var all := Flatten(solution);
    IdsFlatten(s, solution);
    assert |Flatten(s)| == |all|;
    if all == [] {
      // Enumerable.Max over no tasks.
      assert Flatten(s) == [];
      assert EndTime(s) == Threw(InvalidOperation);
      return Threw(InvalidOperation);
    }
    RunAllKeys(map[], s);
    assert forall k :: k in all ==> k in taskEndTime by {
      forall k | k in all ensures k in taskEndTime {
        var j :| 0 <= j < |all| && all[j] == k;
        assert Flatten(s)[j] in Flatten(s);
      }
    }
    assert taskEndTime == RunAll(map[], s);
    assert Ids(Flatten(s)) == all;
    r := Ok(MaxOf(taskEndTime, all));
    assert EndTime(s) == r;
  }

  // ---------------------------------------------------------------------------
  // The neighbour move.

  /** `c` holds, position by position, a task with the name, duration and
      dependency list of the task of `s` at that position. */
  ghost predicate CopyOf(c: Solution, s: Solution)
    reads Elements(c), Elements(s)
  {
    SameShape(c, s) &&
    forall p, i :: 0 <= p < |s| && 0 <= i < |s[p]| ==>
      c[p][i].name == s[p][i].name && c[p][i].duration == s[p][i].duration &&
      c[p][i].dependencies == s[p][i].dependencies
  }

  /** The deep copy at the start of the neighbour move: a new task per position,
      with the same name and duration and a new list holding the same dependencies. */
  method CopySolution(solution: Solution) returns (copy: Solution)
    ensures CopyOf(copy, solution) && AllDistinct(copy)
    ensures forall p, i :: 0 <= p < |copy| && 0 <= i < |copy[p]| ==> fresh(copy[p][i])
  {
    copy := [];
    var p := 0;
    while p < |solution|
      invariant 0 <= p <= |solution| && |copy| == p
      invariant CopyOf(copy, solution[..p]) && AllDistinct(copy)
      invariant forall q, i :: 0 <= q < |copy| && 0 <= i < |copy[q]| ==> fresh(copy[q][i])
    {
      var newProcessor := CopyQueue(solution[p]);
      assert forall j, q, k :: 0 <= j < |newProcessor| && 0 <= q < |copy| && 0 <= k < |copy[q]| ==>
        newProcessor[j] != copy[q][k];
      AppendDistinct(copy, newProcessor);
      var copy' := copy + [newProcessor];
      assert solution[..p + 1] == solution[..p] + [solution[p]];
      assert CopyOf(copy', solution[..p + 1]) by {
        forall q, j | 0 <= q < p + 1 && 0 <= j < |solution[..p + 1][q]|
          ensures copy'[q][j].name == solution[..p + 1][q][j].name && copy'[q][j].duration == solution[..p + 1][q][j].duration &&
                  copy'[q][j].dependencies == solution[..p + 1][q][j].dependencies
        {
          if q < p {
            assert copy'[q] == copy[q] && solution[..p + 1][q] == solution[..p][q];
          }
        }
      }
      copy := copy';
      p := p + 1;
    }
    assert solution[..p] == solution;
  }

  /** The copy of one processor's list: a new task per position with the same name,
      duration and dependencies. */
  method CopyQueue(processor: seq<Task>) returns (newProcessor: seq<Task>)
    ensures |newProcessor| == |processor|
    ensures forall j :: 0 <= j < |processor| ==> fresh(newProcessor[j])
    ensures forall j :: 0 <= j < |processor| ==>
              newProcessor[j].name == processor[j].name && newProcessor[j].duration == processor[j].duration &&
              newProcessor[j].dependencies == processor[j].dependencies
    ensures forall j, j' :: 0 <= j < j' < |processor| ==> newProcessor[j] != newProcessor[j']
  {
    newProcessor := [];
    var i := 0;
    while i < |processor|
      invariant 0 <= i <= |processor| && |newProcessor| == i
      invariant forall j :: 0 <= j < i ==> fresh(newProcessor[j])
      invariant forall j :: 0 <= j < i ==>
                  newProcessor[j].name == processor[j].name && newProcessor[j].duration == processor[j].duration &&
                  newProcessor[j].dependencies == processor[j].dependencies
      invariant forall j, j' :: 0 <= j < j' < i ==> newProcessor[j] != newProcessor[j']
    {
      var task := processor[i];
      var newTask := new Task(task.name, task.duration);
      newTask.AddDependencies(task.dependencies);
      newProcessor := newProcessor + [newTask];
      i := i + 1;
    }
  }

  /** `foreach (var task in newSolution.SelectMany(p => p)) task.Dependencies.RemoveAll(
      t => t == a || t == b)`: drops `a` and `b` from every dependency list. */
  method RemoveFromDependencies(s: Solution, a: Task, b: Task)
    modifies Elements(s)`dependencies
    ensures forall p, i :: 0 <= p < |s| && 0 <= i < |s[p]| ==>
              s[p][i].dependencies == Without(old(s[p][i].dependencies), a, b)
  {
    var all := Flatten(s);
    ghost var done: set<Task> := {};
    var k := 0;
    while k < |all|
      invariant 0 <= k <= |all|
      invariant forall j :: 0 <= j < k ==> all[j] in done
      invariant forall t :: t in Elements(s) && t in done ==> t.dependencies == Without(old(t.dependencies), a, b)
      invariant forall t :: t in Elements(s) && t !in done ==> t.dependencies == old(t.dependencies)
    {
      var task := all[k];
      FlattenInElements(s, task);
      ghost var cleared := Without(old(task.dependencies), a, b);
      if task in done {
        assert Without(cleared, a, b) == cleared;
      }
      assert Without(task.dependencies, a, b) == cleared;
      task.RemoveDependencies(a, b);
      done := done + {task};
      k := k + 1;
    }
    forall p, i | 0 <= p < |s| && 0 <= i < |s[p]| ensures s[p][i] in done {
      FlattenContains(s, p, i);
    }
  }

  /** The random draws of one neighbour move: both processor indices and both task
      indices, as raw numbers reduced into range. */
  datatype NeighborDraw = NeighborDraw(processor1: nat, processor2: nat, task1: nat, task2: nat)

  /** Some task of the solution has at least one dependency. */
  predicate HasDependencies(s: Solution)
    reads Elements(s)
  {
    exists p, i :: 0 <= p < |s| && 0 <= i < |s[p]| && s[p][i].dependencies != []
  }

  /** The arrangement the neighbour move produces, as the code behaves. The copied
      tasks keep dependency lists that refer to the original tasks, never to the
      copies: the validity check never finds a conflict, removing the swapped copies
      from dependency lists removes nothing, and every dependency counts as missing
      from the new solution. So the two drawn tasks change places exactly when
      both drawn queues are non-empty and no task has a dependency. */
  function NeighborOrder(s: Solution, draw: NeighborDraw): (r: Solution)
    requires |s| > 0
    reads Elements(s)
    ensures SameShape(r, s) && Elements(r) == Elements(s)
  {
    var p1 := draw.processor1 % |s|;
    var p2 := draw.processor2 % |s|;
    if |s[p1]| > 0 && |s[p2]| > 0 && !HasDependencies(s) then
      SwapElements(s, p1, draw.task1 % |s[p1]|, p2, draw.task2 % |s[p2]|);
      Swap(s, p1, draw.task1 % |s[p1]|, p2, draw.task2 % |s[p2]|)
    else s
  }

  /** No dependency of a task of the solution is itself a task of the solution. */
  ghost predicate DependenciesOutside(s: Solution)
    reads Elements(s)
  {
    forall p, i, d :: 0 <= p < |s| && 0 <= i < |s[p]| && d in s[p][i].dependencies ==> !IsTaskAssigned(s, d)
  }

  /** Copies of a swapped solution have dependencies exactly when the original has. */
  lemma SwapCopyHasDependencies(c: Solution, s: Solution, p1: int, i1: int, p2: int, i2: int)
    requires 0 <= p1 < |s| && 0 <= i1 < |s[p1]| && 0 <= p2 < |s| && 0 <= i2 < |s[p2]|
    requires CopyOf(c, Swap(s, p1, i1, p2, i2))
    ensures HasDependencies(c) <==> HasDependencies(s)
  {
    var w: Solution := Swap(s, p1, i1, p2, i2);
    if HasDependencies(c) {
      var p, i :| 0 <= p < |c| && 0 <= i < |c[p]| && c[p][i].dependencies != [];
      var (sp, si) := SwapSource(p, i, p1, i1, p2, i2);
      assert w[p][i] == s[sp][si];
    }
    if HasDependencies(s) {
      var p, i :| 0 <= p < |s| && 0 <= i < |s[p]| && s[p][i].dependencies != [];
      var (tp, ti) := SwapSource(p, i, p1, i1, p2, i2);
      assert w[tp][ti] == s[p][i];
    }
  }

  /** The violation check of the neighbour move: some task depends on a task that
      is not in the solution. */
  predicate MissingDependency(s: Solution)
    reads Elements(s)
  {
    exists p, i :: 0 <= p < |s| && 0 <= i < |s[p]| &&
      exists d :: d in s[p][i].dependencies && d !in Flatten(s)
  }

  /** When no dependency is a task of the solution, every task with dependencies
      depends on a task missing from the solution, and only those do. */
  lemma OutsideDependencies(s: Solution)
    requires forall p, i, d :: 0 <= p < |s| && 0 <= i < |s[p]| && d in s[p][i].dependencies ==> d !in Elements(s)
    ensures DependenciesOutside(s)
    ensures HasDependencies(s) <==> MissingDependency(s)
  {
    ElementsFlatten(s);
    if HasDependencies(s) {
      var p, i :| 0 <= p < |s| && 0 <= i < |s[p]| && s[p][i].dependencies != [];
      assert s[p][i].dependencies[0] !in Flatten(s);
    }
  }

  /** The swap step of the neighbour move on a fresh copy: check the swap, swap,
      drop the swapped tasks from every dependency list, and undo the swap when
      some task depends on a task that is not in the new solution. On a copy whose
      dependencies all lie outside it, the check always passes, the removal changes
      nothing, and the swap is undone exactly when some task has a dependency. */
  method SwapIfValid(newSolution: Solution, processorIndex1: int, taskIndex1: int,
                     processorIndex2: int, taskIndex2: int) returns (result: Solution)
    requires 0 <= processorIndex1 < |newSolution| && 0 <= taskIndex1 < |newSolution[processorIndex1]|
    requires 0 <= processorIndex2 < |newSolution| && 0 <= taskIndex2 < |newSolution[processorIndex2]|
    requires forall p, i, d :: 0 <= p < |newSolution| && 0 <= i < |newSolution[p]| && d in newSolution[p][i].dependencies
               ==> d !in Elements(newSolution)
    modifies Elements(newSolution)`dependencies
    ensures forall t :: t in Elements(newSolution) ==> t.dependencies == old(t.dependencies)
    ensures result == if HasDependencies(newSolution) then newSolution
                      else Swap(newSolution, processorIndex1, taskIndex1, processorIndex2, taskIndex2)
  {
    var task1: Task := newSolution[processorIndex1][taskIndex1];
    var task2: Task := newSolution[processorIndex2][taskIndex2];
    var dependenciesTask1 := task1.dependencies;
    var dependenciesTask2 := task2.dependencies;
    var validSwap := !(exists d :: d in dependenciesTask1 && d in newSolution[processorIndex2]) &&
                     !(exists d :: d in dependenciesTask2 && d in newSolution[processorIndex1]);
    result := newSolution;
    assert validSwap by {
      forall d | d in newSolution[processorIndex1] || d in newSolution[processorIndex2]
        ensures d in Elements(newSolution)
      {
      }
    }
    if validSwap {
      result := SwapAndUpdate(newSolution, processorIndex1, taskIndex1, processorIndex2, taskIndex2);
      SwapViolation(newSolution, processorIndex1, taskIndex1, processorIndex2, taskIndex2);
      var violated := MissingDependency(result);
      if violated {
        result := UndoSwap(newSolution, result, processorIndex1, taskIndex1, task1, processorIndex2, taskIndex2, task2);
      }
    }
  }

  /** Putting the two tasks back at their places undoes the swap. */
  method UndoSwap(ghost s: Solution, w: Solution, p1: int, i1: int, task1: Task, p2: int, i2: int, task2: Task)
    returns (r: Solution)
    requires 0 <= p1 < |s| && 0 <= i1 < |s[p1]| && 0 <= p2 < |s| && 0 <= i2 < |s[p2]|
    requires w == Swap(s, p1, i1, p2, i2) && task1 == s[p1][i1] && task2 == s[p2][i2]
    ensures r == s
  {
    SwapBack(s, p1, i1, p2, i2);
    r := w[p1 := w[p1][i1 := task1]];
    r := r[p2 := r[p2][i2 := task2]];
  }

  /** Swap the two tasks and drop both from every dependency list. On a solution
      whose dependencies lie outside it, the removal changes no list. */
  method SwapAndUpdate(s: Solution, p1: int, i1: int, p2: int, i2: int) returns (w: Solution)
    requires 0 <= p1 < |s| && 0 <= i1 < |s[p1]| && 0 <= p2 < |s| && 0 <= i2 < |s[p2]|
    requires forall p, i, d :: 0 <= p < |s| && 0 <= i < |s[p]| && d in s[p][i].dependencies ==> d !in Elements(s)
    modifies Elements(s)`dependencies
    ensures w == Swap(s, p1, i1, p2, i2)
    ensures forall t :: t in Elements(s) ==> t.dependencies == old(t.dependencies)
  {
    var task1: Task := s[p1][i1];
    var task2: Task := s[p2][i2];
    w := s[p1 := s[p1][i1 := task2]];
    w := w[p2 := w[p2][i2 := task1]];
    SwapOutside(s, p1, i1, p2, i2);
    RemoveFromDependencies(w, task1, task2);
  }

  /** After the swap, the violation check of the neighbour move holds exactly when
      the solution has a dependency. */
  lemma SwapViolation(s: Solution, p1: int, i1: int, p2: int, i2: int)
    requires 0 <= p1 < |s| && 0 <= i1 < |s[p1]| && 0 <= p2 < |s| && 0 <= i2 < |s[p2]|
    requires forall p, i, d :: 0 <= p < |s| && 0 <= i < |s[p]| && d in s[p][i].dependencies ==> d !in Elements(s)
    ensures var w := Swap(s, p1, i1, p2, i2);
      HasDependencies(s) <==> MissingDependency(w)
  {
    SwapOutside(s, p1, i1, p2, i2);
  }

  /** On a swapped solution whose dependencies lie outside it, the removal leaves
      every list as it is and the violation check means "some task has a dependency". */
  lemma SwapOutside(s: Solution, p1: int, i1: int, p2: int, i2: int)
    requires 0 <= p1 < |s| && 0 <= i1 < |s[p1]| && 0 <= p2 < |s| && 0 <= i2 < |s[p2]|
    requires forall p, i, d :: 0 <= p < |s| && 0 <= i < |s[p]| && d in s[p][i].dependencies ==> d !in Elements(s)
    ensures var w := Swap(s, p1, i1, p2, i2);
      Elements(w) == Elements(s) && DependenciesOutside(w) &&
      (forall p, i :: 0 <= p < |w| && 0 <= i < |w[p]| ==>
         Without(w[p][i].dependencies, s[p1][i1], s[p2][i2]) == w[p][i].dependencies) &&
      (HasDependencies(s) <==> MissingDependency(w))
  {
    var w: Solution := Swap(s, p1, i1, p2, i2);
    SwapElements(s, p1, i1, p2, i2);
    forall p, i, d | 0 <= p < |w| && 0 <= i < |w[p]| && d in w[p][i].dependencies ensures d !in Elements(w) {
      var (sp, si) := SwapSource(p, i, p1, i1, p2, i2);
      assert w[p][i] == s[sp][si];
    }
    forall p, i | 0 <= p < |w| && 0 <= i < |w[p]|
      ensures Without(w[p][i].dependencies, s[p1][i1], s[p2][i2]) == w[p][i].dependencies
    {
      assert s[p1][i1] in Elements(s) && s[p2][i2] in Elements(s);
    }
    OutsideDependencies(w);
    assert CopyOf(w, Swap(s, p1, i1, p2, i2));
    SwapCopyHasDependencies(w, s, p1, i1, p2, i2);
  }

  /** The neighbour move applied to a copy whose dependencies lie outside it gives
      a copy of the move applied to the original, duplicate-free and with its
      dependencies still outside. */
  lemma NeighborOfCopy(c: Solution, s: Solution, draw: NeighborDraw)
    requires |s| > 0 && CopyOf(c, s) && AllDistinct(c)
    requires forall p, i, d :: 0 <= p < |c| && 0 <= i < |c[p]| && d in c[p][i].dependencies ==> d !in Elements(c)
    ensures CopyOf(NeighborOrder(c, draw), NeighborOrder(s, draw))
    ensures AllDistinct(NeighborOrder(c, draw)) && DependenciesOutside(NeighborOrder(c, draw))
  {
    var p1 := draw.processor1 % |s|;
    var p2 := draw.processor2 % |s|;
    if |s[p1]| > 0 && |s[p2]| > 0 {
      SwapCopyFacts(c, s, p1, draw.task1 % |s[p1]|, p2, draw.task2 % |s[p2]|);
    } else {
      OutsideDependencies(c);
    }
  }

  /** A copy and its swap: the swap of a copy is a copy of the swap, stays
      duplicate-free and keeps its dependencies outside, and the copy has
      dependencies exactly when the original does. */
  lemma SwapCopyFacts(c: Solution, s: Solution, p1: int, i1: int, p2: int, i2: int)
    requires 0 <= p1 < |s| && 0 <= i1 < |s[p1]| && 0 <= p2 < |s| && 0 <= i2 < |s[p2]|
    requires CopyOf(c, s) && AllDistinct(c)
    requires forall p, i, d :: 0 <= p < |c| && 0 <= i < |c[p]| && d in c[p][i].dependencies ==> d !in Elements(c)
    ensures HasDependencies(c) <==> HasDependencies(s)
    ensures CopyOf(Swap(c, p1, i1, p2, i2), Swap(s, p1, i1, p2, i2))
    ensures DependenciesOutside(c)
    ensures AllDistinct(Swap(c, p1, i1, p2, i2)) && DependenciesOutside(Swap(c, p1, i1, p2, i2))
  {
    OutsideDependencies(c);
    CopyHasDependencies(c, s);
    SwapCopy(c, s, p1, i1, p2, i2);
    SwapDistinct(c, p1, i1, p2, i2);
    SwapOutside(c, p1, i1, p2, i2);
  }

  /** A copy has dependencies exactly when the original has. */
  lemma CopyHasDependencies(c: Solution, s: Solution)
    requires CopyOf(c, s)
    ensures HasDependencies(c) <==> HasDependencies(s)
  {
    if HasDependencies(c) {
      var p, i :| 0 <= p < |c| && 0 <= i < |c[p]| && c[p][i].dependencies != [];
      assert s[p][i].dependencies != [];
    }
    if HasDependencies(s) {
      var p, i :| 0 <= p < |s| && 0 <= i < |s[p]| && s[p][i].dependencies != [];
      assert c[p][i].dependencies != [];
    }
  }

  /** Swapping the same positions of a copy and its original keeps the one a copy
      of the other. */
  lemma SwapCopy(c: Solution, s: Solution, p1: int, i1: int, p2: int, i2: int)
    requires 0 <= p1 < |s| && 0 <= i1 < |s[p1]| && 0 <= p2 < |s| && 0 <= i2 < |s[p2]|
    requires CopyOf(c, s)
    ensures CopyOf(Swap(c, p1, i1, p2, i2), Swap(s, p1, i1, p2, i2))
  {
    var w: Solution := Swap(c, p1, i1, p2, i2);
    var v: Solution := Swap(s, p1, i1, p2, i2);
    forall p, i | 0 <= p < |v| && 0 <= i < |v[p]|
      ensures w[p][i].name == v[p][i].name && w[p][i].duration == v[p][i].duration &&
              w[p][i].dependencies == v[p][i].dependencies
    {
      var (sp, si) := SwapSource(p, i, p1, i1, p2, i2);
      assert w[p][i] == c[sp][si] && v[p][i] == s[sp][si];
    }
  }

  /** GetNeighborSolution, with the random draws as a parameter: copy the solution,
      draw two processors and, when both have tasks, two tasks to swap. */
  method GetNeighborSolution(solution: Solution, draw: NeighborDraw) returns (r: Result<Solution>)
    ensures r.Threw? <==> |solution| == 0
    ensures r.Threw? ==> r.error == ArgumentOutOfRange
    ensures r.Ok? ==> |solution| > 0 && CopyOf(r.value, NeighborOrder(solution, draw))
    ensures r.Ok? ==> AllDistinct(r.value) && DependenciesOutside(r.value)
    ensures r.Ok? ==> forall p, i :: 0 <= p < |r.value| && 0 <= i < |r.value[p]| ==> fresh(r.value[p][i])
  {
    var newSolution: Solution := CopySolution(solution);
    if |solution| == 0 {
      // random.Next(0) is 0, and indexing an empty list throws.
      return Threw(ArgumentOutOfRange);
    }
    // The copies are new objects; their dependencies are old ones.
    assert forall p, i, d :: 0 <= p < |newSolution| && 0 <= i < |newSolution[p]| && d in newSolution[p][i].dependencies
             ==> d !in Elements(newSolution) by {
      forall p, i, d | 0 <= p < |newSolution| && 0 <= i < |newSolution[p]| && d in newSolution[p][i].dependencies
        ensures d !in Elements(newSolution)
      {
        assert d in solution[p][i].dependencies;
      }
    }
    ghost var copy := newSolution;
    newSolution := MoveInCopy(newSolution, solution, draw);
    forall p, i | 0 <= p < |newSolution| && 0 <= i < |newSolution[p]|
      ensures fresh(newSolution[p][i])
    {
      assert newSolution[p][i] in Elements(copy);
    }
    return Ok(newSolution);
  }

  /** The second half of the neighbour move, on the fresh copy of `solution`: draw
      two processors and, when both have tasks, two tasks, and try the swap. */
  method MoveInCopy(newSolution: Solution, ghost solution: Solution, draw: NeighborDraw) returns (result: Solution)
    requires |solution| > 0 && CopyOf(newSolution, solution) && AllDistinct(newSolution)
    requires forall p, i, d :: 0 <= p < |newSolution| && 0 <= i < |newSolution[p]| && d in newSolution[p][i].dependencies
               ==> d !in Elements(newSolution)
    modifies Elements(newSolution)`dependencies
    ensures CopyOf(result, NeighborOrder(solution, draw))
    ensures AllDistinct(result) && DependenciesOutside(result)
    ensures Elements(result) == Elements(newSolution)
  {
    result := newSolution;
    var processorIndex1 := draw.processor1 % |newSolution|;
    var processorIndex2 := draw.processor2 % |newSolution|;
    if |newSolution[processorIndex1]| > 0 && |newSolution[processorIndex2]| > 0 {
      var taskIndex1 := draw.task1 % |newSolution[processorIndex1]|;
      var taskIndex2 := draw.task2 % |newSolution[processorIndex2]|;
      label BeforeSwap:
      result := SwapIfValid(newSolution, processorIndex1, taskIndex1, processorIndex2, taskIndex2);
      assert CopyOf(newSolution, solution) by {
        forall p, i | 0 <= p < |solution| && 0 <= i < |solution[p]|
          ensures newSolution[p][i].dependencies == solution[p][i].dependencies
        {
          assert newSolution[p][i] in Elements(newSolution);
          assert old@BeforeSwap(newSolution[p][i].dependencies == solution[p][i].dependencies);
        }
      }
      assert forall p, i, d :: 0 <= p < |newSolution| && 0 <= i < |newSolution[p]| && d in newSolution[p][i].dependencies
               ==> d !in Elements(newSolution) by {
        forall p, i, d | 0 <= p < |newSolution| && 0 <= i < |newSolution[p]| && d in newSolution[p][i].dependencies
          ensures d !in Elements(newSolution)
        {
          assert newSolution[p][i] in Elements(newSolution);
        }
      }
    }
    assert result == NeighborOrder(newSolution, draw);
    NeighborOfCopy(newSolution, solution, draw);
  }

  /** What the neighbour move's result is rated: its tasks are distinct and none
      of them depends on another, so with non-negative durations its end time is
      the largest processor load, whatever dependencies the tasks declare. */
  lemma NeighborEnergy(c: Solution)
    requires AllDistinct(c) && DependenciesOutside(c) && Flatten(c) != []
    requires NonNegativeDurations(JobQueues(c))
    ensures EndTime(JobQueues(c)) == Ok(MaxLoad(JobQueues(c)))
  {
    var q: Queues<Task> := JobQueues(c);
    assert Distinct(q) by {
      forall p, i, p', i' | 0 <= p < |q| && 0 <= i < |q[p]| && 0 <= p' < |q| && 0 <= i' < |q[p']| && (p != p' || i != i')
        ensures q[p][i].id != q[p'][i'].id
      {
        assert q[p][i].id == c[p][i] && q[p'][i'].id == c[p'][i'];
      }
    }
    assert NoInternalDependencies(q) by {
      forall p, i, p', i' | 0 <= p < |q| && 0 <= i < |q[p]| && 0 <= p' < |q| && 0 <= i' < |q[p']|
        ensures q[p'][i'].id !in q[p][i].deps
      {
        assert q[p][i].deps == c[p][i].dependencies && q[p'][i'].id == c[p'][i'];
        assert IsTaskAssigned(c, c[p'][i']) by {
          assert c[p'][i'] in c[p'];
        }
      }
    }
    SameShapeTotalLength(q, c);
    EndTimeIsLargestLoad(q);
  }

  // ---------------------------------------------------------------------------
  // The annealing loop.

  /** ShouldAcceptSolution, with `chance` standing for the outcome of the random
      comparison against exp(-difference / temperature): an improvement is always
      accepted, anything else exactly when the draw says so. */
  function ShouldAcceptSolution(energyDifference: int, chance: bool): (r: bool)
    ensures energyDifference < 0 ==> r
    ensures energyDifference >= 0 ==> r == chance
  {
    if energyDifference < 0 then true else chance
  }

  /** The smallest element. */
  function Min(s: seq<int>): (r: int)
    requires s != []
    ensures r in s && forall x :: x in s ==> r <= x
    decreases |s|
  {
    if |s| == 1 then s[0]
    else
      var m := Min(s[..|s| - 1]);
      assert s == s[..|s| - 1] + [s[|s| - 1]];
      if s[|s| - 1] < m then s[|s| - 1] else m
  }

  /** The energy history of a run: `energies[k + 1]` is the proposal of
      iteration `k` when it is accepted and `energies[k]` otherwise. */
  predicate AcceptanceHistory(energies: seq<int>, proposals: seq<int>, accept: nat -> bool)
  {
    |energies| == |proposals| + 1 &&
    forall k :: 0 <= k < |proposals| ==>
      energies[k + 1] == if ShouldAcceptSolution(proposals[k] - energies[k], accept(k)) then proposals[k] else energies[k]
  }

  /** `c` is what the neighbour move makes of `s` with `draw`: copies of the
      tasks of the moved solution, all distinct, none of them depending on another. */
  ghost predicate IsNeighbor(c: Solution, s: Solution, draw: NeighborDraw)
    reads Elements(c), Elements(s)
  {
    |s| > 0 && CopyOf(c, NeighborOrder(s, draw)) && AllDistinct(c) && DependenciesOutside(c)
  }

  /** One neighbour move and its rating: the neighbour is a new copy of the
      current solution with the neighbour move applied, and `energy` is its end time. */
  method RateNeighbor(currentSolution: Solution, draw: NeighborDraw)
    returns (newSolution: Solution, energy: int)
    requires Flatten(currentSolution) != []
    ensures |currentSolution| > 0 && IsNeighbor(newSolution, currentSolution, draw)
    ensures forall p, i :: 0 <= p < |newSolution| && 0 <= i < |newSolution[p]| ==> fresh(newSolution[p][i])
    ensures SameShape(newSolution, currentSolution)
    ensures EndTime(JobQueues(newSolution)) == Ok(energy)
  {
    assert |currentSolution| > 0;
    var neighbor := GetNeighborSolution(currentSolution, draw);
    newSolution := neighbor.value;
    assert SameShape(newSolution, currentSolution) by {
      assert SameShape(newSolution, NeighborOrder(currentSolution, draw));
    }
    SameShapeTotalLength(newSolution, currentSolution);
    assert IsNeighbor(newSolution, currentSolution, draw);
    label Rated:
    var rating := CalculateEndTime(newSolution);
    NeighborKept@Rated(newSolution, currentSolution, draw);
    energy := rating.value;
  }

  /** Whether `c` is a neighbour of `s` depends only on the fields of their tasks. */
  twostate lemma NeighborKept(c: Solution, new s: Solution, new draw: NeighborDraw)
    requires old(allocated(s)) && unchanged(Elements(c)) && unchanged(Elements(s))
    ensures IsNeighbor(c, s, draw) == old(IsNeighbor(c, s, draw))
  {
  }

  /** What one iteration of the annealing loop does, from the current solution
      `current` of end time `energy`: `neighbor` is the neighbour move applied to
      a copy of `current`, rated `proposal`, and the next current solution is
      the neighbour when the acceptance rule takes it and `current` otherwise. */
  ghost predicate Iteration(current: Solution, energy: int, draw: NeighborDraw, chance: bool,
                            neighbor: Solution, proposal: int, next: Solution)
    requires |current| > 0
    reads Elements(current), Elements(neighbor)
  {
    IsNeighbor(neighbor, current, draw) &&
    EndTime(JobQueues(neighbor)) == Ok(proposal) &&
    next == if ShouldAcceptSolution(proposal - energy, chance) then neighbor else current
  }

  /** One iteration of the annealing loop: a neighbour of the current solution
      is rated as `proposal` and accepted as the rule says; the best solution
      becomes the new current one when it was accepted with a lower energy. */
  method AnnealingStep(currentSolution: Solution, currentEnergy: int,
                       bestSolution: Solution, bestEnergy: int,
                       draw: NeighborDraw, chance: bool)
    returns (nextSolution: Solution, nextEnergy: int, nextBest: Solution, nextBestEnergy: int,
             proposal: int, ghost neighbor: Solution)
    requires Flatten(currentSolution) != []
    requires EndTime(JobQueues(currentSolution)) == Ok(currentEnergy)
    ensures |currentSolution| > 0
    ensures Iteration(currentSolution, currentEnergy, draw, chance, neighbor, proposal, nextSolution)
    ensures SameShape(nextSolution, currentSolution)
    ensures nextEnergy == if ShouldAcceptSolution(proposal - currentEnergy, chance) then proposal else currentEnergy
    ensures EndTime(JobQueues(nextSolution)) == Ok(nextEnergy)
    ensures nextBest == if ShouldAcceptSolution(proposal - currentEnergy, chance) && proposal < bestEnergy
                        then neighbor else bestSolution
    ensures nextBestEnergy == if ShouldAcceptSolution(proposal - currentEnergy, chance) && proposal < bestEnergy
                              then proposal else bestEnergy
  {
    label BeforeMove:
    var newSolution, newEnergy := RateNeighbor(currentSolution, draw);
    JobsKept@BeforeMove(currentSolution);
    neighbor, proposal := newSolution, newEnergy;
    nextSolution, nextEnergy, nextBest, nextBestEnergy := currentSolution, currentEnergy, bestSolution, bestEnergy;
    var energyDifference := newEnergy - currentEnergy;
    if ShouldAcceptSolution(energyDifference, chance) {
      nextSolution := newSolution;
      nextEnergy := newEnergy;
      if nextEnergy < bestEnergy {
        nextBest := nextSolution;
        nextBestEnergy := nextEnergy;
      }
    }
  }

  /** The ghost record of a run of the annealing loop: `currents[k]` is the
      current solution before iteration `k` (and after the last one), of end time
      `energies[k]`; `neighbors[k]` is the neighbour iteration `k` rated, of end
      time `proposals[k]`. */
  datatype History = History(currents: seq<Solution>, energies: seq<int>,
                             neighbors: seq<Solution>, proposals: seq<int>)

  /** The tasks of the solutions of a sequence. */
  ghost function SolutionTasks(h: seq<Solution>): set<Task>
  {
    set k, t | 0 <= k < |h| && t in Elements(h[k]) :: t
  }

  /** The tasks of every solution a history holds. */
  ghost function HistoryTasks(h: History): set<Task>
  {
    SolutionTasks(h.currents) + SolutionTasks(h.neighbors)
  }

  /** The tasks of an allocated history are allocated. */
  lemma HistoryAllocated(h: History)
    requires allocated(h)
    ensures forall t :: t in HistoryTasks(h) ==> allocated(t)
  {
    forall t | t in HistoryTasks(h) ensures allocated(t) {
      if t in SolutionTasks(h.currents) {
        var k :| 0 <= k < |h.currents| && t in Elements(h.currents[k]);
        var p, i :| 0 <= p < |h.currents[k]| && 0 <= i < |h.currents[k][p]| && h.currents[k][p][i] == t;
      } else {
        var k :| 0 <= k < |h.neighbors| && t in Elements(h.neighbors[k]);
        var p, i :| 0 <= p < |h.neighbors[k]| && 0 <= i < |h.neighbors[k][p]| && h.neighbors[k][p][i] == t;
      }
    }
  }

  /** `h` records a run of the annealing loop: it starts from a solution with at
      least one processor, and iteration `k` draws `draws(k)` and `accept(k)`,
      rates the neighbour move of `currents[k]` and leaves `currents[k + 1]` as
      the current solution, as the acceptance rule says. */
  ghost predicate AnnealingRun(draws: nat -> NeighborDraw, accept: nat -> bool, h: History)
    reads HistoryTasks(h)
  {
    && |h.currents| == |h.energies| == |h.proposals| + 1 && |h.neighbors| == |h.proposals|
    && |h.currents[0]| > 0
    && RunStates(h.currents[0], h.currents, h.energies)
    && RunIterations(draws, accept, h.currents, h.neighbors, h.energies, h.proposals)
  }

  /** Every current solution of a run has the initial shape and its end time. */
  ghost predicate RunStates(initial: Solution, currents: seq<Solution>, energies: seq<int>)
    reads SolutionTasks(currents)
  {
    |currents| <= |energies| &&
    forall k :: 0 <= k < |currents| ==>
      SameShape(currents[k], initial) && EndTime(JobQueues(currents[k])) == Ok(energies[k])
  }

  /** Every iteration of a run moves, rates and accepts as one loop iteration does. */
  ghost predicate RunIterations(draws: nat -> NeighborDraw, accept: nat -> bool,
                                currents: seq<Solution>, neighbors: seq<Solution>,
                                energies: seq<int>, proposals: seq<int>)
    reads SolutionTasks(currents), SolutionTasks(neighbors)
  {
    |currents| == |energies| == |proposals| + 1 && |neighbors| == |proposals| &&
    forall k :: 0 <= k < |proposals| ==>
      |currents[k]| > 0 &&
      Iteration(currents[k], energies[k], draws(k), accept(k), neighbors[k], proposals[k], currents[k + 1])
  }

  /** A run extends by one iteration from its last current solution. */
  lemma RunStep(draws: nat -> NeighborDraw, accept: nat -> bool, h: History,
                neighbor: Solution, proposal: int, next: Solution, energy: int)
    requires AnnealingRun(draws, accept, h)
    requires Iteration(h.currents[|h.proposals|], h.energies[|h.proposals|], draws(|h.proposals|),
                       accept(|h.proposals|), neighbor, proposal, next)
    requires SameShape(next, h.currents[0]) && EndTime(JobQueues(next)) == Ok(energy)
    ensures AnnealingRun(draws, accept, History(h.currents + [next], h.energies + [energy],
                                                h.neighbors + [neighbor], h.proposals + [proposal]))
  {
    StatesStep(h.currents[0], h.currents, h.energies, next, energy);
    IterationsStep(draws, accept, h.currents, h.neighbors, h.energies, h.proposals, neighbor, proposal, next, energy);
    assert (h.currents + [next])[0] == h.currents[0];
  }

  /** One more current solution of the initial shape, with its end time. */
  lemma StatesStep(initial: Solution, currents: seq<Solution>, energies: seq<int>, next: Solution, energy: int)
    requires RunStates(initial, currents, energies) && |currents| == |energies|
    requires SameShape(next, initial) && EndTime(JobQueues(next)) == Ok(energy)
    ensures RunStates(initial, currents + [next], energies + [energy])
  {
    var c, e := currents + [next], energies + [energy];
    forall k | 0 <= k < |c|
      ensures SameShape(c[k], initial) && EndTime(JobQueues(c[k])) == Ok(e[k])
    {
      if k < |currents| {
        assert c[k] == currents[k] && e[k] == energies[k];
      }
    }
  }

  /** One more iteration from the last current solution. */
  lemma IterationsStep(draws: nat -> NeighborDraw, accept: nat -> bool,
                       currents: seq<Solution>, neighbors: seq<Solution>, energies: seq<int>, proposals: seq<int>,
                       neighbor: Solution, proposal: int, next: Solution, energy: int)
    requires RunIterations(draws, accept, currents, neighbors, energies, proposals)
    requires |currents[|proposals|]| > 0
    requires Iteration(currents[|proposals|], energies[|proposals|], draws(|proposals|), accept(|proposals|),
                       neighbor, proposal, next)
    ensures RunIterations(draws, accept, currents + [next], neighbors + [neighbor],
                          energies + [energy], proposals + [proposal])
  {
    var c, n, e, q := currents + [next], neighbors + [neighbor], energies + [energy], proposals + [proposal];
    forall k | 0 <= k < |q|
      ensures |c[k]| > 0 && Iteration(c[k], e[k], draws(k), accept(k), n[k], q[k], c[k + 1])
    {
      assert c[k] == currents[k] && e[k] == energies[k];
      if k < |proposals| {
        assert c[k + 1] == currents[k + 1] && n[k] == neighbors[k] && q[k] == proposals[k];
      } else {
        assert c[k + 1] == next && n[k] == neighbor && q[k] == proposal;
      }
    }
  }

  /** Whether a history records a run depends only on the fields of its tasks. */
  twostate lemma RunKept(h: History, new draws: nat -> NeighborDraw, new accept: nat -> bool)
    requires unchanged(HistoryTasks(h))
    ensures AnnealingRun(draws, accept, h) == old(AnnealingRun(draws, accept, h))
  {
  }

  /** The loop's record after one more iteration: the run goes on from the
      solution the iteration leaves, and the best index still points at the
      first current solution of the lowest end time. */
  lemma Advance(draws: nat -> NeighborDraw, accept: nat -> bool, h: History,
                neighbor: Solution, proposal: int, next: Solution, energy: int, bestIndex: nat)
    requires AnnealingRun(draws, accept, h)
    requires Iteration(h.currents[|h.proposals|], h.energies[|h.proposals|], draws(|h.proposals|),
                       accept(|h.proposals|), neighbor, proposal, next)
    requires SameShape(next, h.currents[0]) && EndTime(JobQueues(next)) == Ok(energy)
    requires energy == if ShouldAcceptSolution(proposal - h.energies[|h.proposals|], accept(|h.proposals|))
                       then proposal else h.energies[|h.proposals|]
    requires FirstMinimum(h.energies, bestIndex)
    ensures var h' := History(h.currents + [next], h.energies + [energy], h.neighbors + [neighbor],
                              h.proposals + [proposal]);
            var j := if ShouldAcceptSolution(proposal - h.energies[|h.proposals|], accept(|h.proposals|)) &&
                        proposal < h.energies[bestIndex] then |h.currents| else bestIndex;
            && AnnealingRun(draws, accept, h')
            && h'.currents[0] == h.currents[0] && h'.currents[|h.currents|] == next
            && h'.energies[|h.currents|] == energy
            && j < |h'.currents| && FirstMinimum(h'.energies, j)
            && h'.currents[j] == (if j == bestIndex then h.currents[bestIndex] else next)
  {
    RunStep(draws, accept, h, neighbor, proposal, next, energy);
    AppendFirstMinimum(h.energies, bestIndex, energy);
    assert Min(h.energies) <= h.energies[|h.proposals|] by {
      assert h.energies[|h.proposals|] in h.energies;
    }
    var h' := History(h.currents + [next], h.energies + [energy], h.neighbors + [neighbor], h.proposals + [proposal]);
    assert h'.currents[bestIndex] == h.currents[bestIndex] && h'.energies[bestIndex] == h.energies[bestIndex];
  }

  /** In a run, the energy after each iteration is the proposal when the
      acceptance rule takes it and the energy before otherwise. */
  lemma RunAcceptance(draws: nat -> NeighborDraw, accept: nat -> bool, h: History)
    requires AnnealingRun(draws, accept, h)
    ensures AcceptanceHistory(h.energies, h.proposals, accept)
  {
    forall k | 0 <= k < |h.proposals|
      ensures h.energies[k + 1] ==
              if ShouldAcceptSolution(h.proposals[k] - h.energies[k], accept(k)) then h.proposals[k] else h.energies[k]
    {
      assert Iteration(h.currents[k], h.energies[k], draws(k), accept(k), h.neighbors[k], h.proposals[k], h.currents[k + 1]);
      assert EndTime(JobQueues(h.currents[k])) == Ok(h.energies[k]);
      assert EndTime(JobQueues(h.currents[k + 1])) == Ok(h.energies[k + 1]);
    }
  }

  /** With non-negative durations, the end time a run rates a neighbour at is
      the largest processor load of that neighbour. */
  lemma ProposalIsLargestLoad(draws: nat -> NeighborDraw, accept: nat -> bool, h: History, k: int)
    requires AnnealingRun(draws, accept, h) && Flatten(h.currents[0]) != []
    requires 0 <= k < |h.proposals| && NonNegativeDurations(JobQueues(h.neighbors[k]))
    ensures h.proposals[k] == MaxLoad(JobQueues(h.neighbors[k]))
  {
    var current, neighbor := h.currents[k], h.neighbors[k];
    assert Iteration(current, h.energies[k], draws(k), accept(k), neighbor, h.proposals[k], h.currents[k + 1]);
    assert SameShape(neighbor, current) by {
      assert SameShape(neighbor, NeighborOrder(current, draws(k)));
    }
    SameShapeTotalLength(current, h.currents[0]);
    SameShapeTotalLength(neighbor, current);
    NeighborEnergy(neighbor);
  }

  /** A run starts from any rated solution with at least one processor. */
  lemma RunStart(draws: nat -> NeighborDraw, accept: nat -> bool, h: History)
    requires |h.currents| == |h.energies| == 1 && h.neighbors == [] && h.proposals == []
    requires |h.currents[0]| > 0 && EndTime(JobQueues(h.currents[0])) == Ok(h.energies[0])
    ensures AnnealingRun(draws, accept, h)
  {
    assert SameShape(h.currents[0], h.currents[0]);
  }

  /** The facts a run records about its `j`-th current solution. */
  lemma RunCurrent(draws: nat -> NeighborDraw, accept: nat -> bool, h: History, j: int)
    requires AnnealingRun(draws, accept, h) && 0 <= j < |h.currents|
    ensures SameShape(h.currents[j], h.currents[0]) && EndTime(JobQueues(h.currents[j])) == Ok(h.energies[j])
  {
    assert RunStates(h.currents[0], h.currents, h.energies);
  }

  /** The state of SimulatedAnnealing after `i` iterations: `run` records them
      from `initial`, the current solution is its last, and the best solution is
      the first of its current solutions of the lowest end time. */
  ghost predicate AnnealingState(draws: nat -> NeighborDraw, accept: nat -> bool, initial: Solution,
                                 run: History, i: nat, current: Solution, energy: int,
                                 best: Solution, bestEnergy: int, bestIndex: nat)
    reads HistoryTasks(run)
  {
    && AnnealingRun(draws, accept, run) && run.currents[0] == initial && |run.proposals| == i
    && current == run.currents[i] && energy == run.energies[i]
    && bestIndex <= i && best == run.currents[bestIndex]
    && FirstMinimum(run.energies, bestIndex) && bestEnergy == run.energies[bestIndex]
  }

  /** What SimulatedAnnealing returns after `i` iterations: the best solution
      is the first of the lowest end time among the current solutions of the run, and
      every iteration accepted as ShouldAcceptSolution decides. */
  lemma AnnealingResult(draws: nat -> NeighborDraw, accept: nat -> bool, initial: Solution,
                        run: History, i: nat, current: Solution, energy: int,
                        best: Solution, bestEnergy: int, bestIndex: nat)
    requires AnnealingState(draws, accept, initial, run, i, current, energy, best, bestEnergy, bestIndex)
    ensures AnnealingRun(draws, accept, run) && run.currents[0] == initial && |run.proposals| == i
    ensures AcceptanceHistory(run.energies, run.proposals, accept)
    ensures exists j :: 0 <= j < |run.currents| && FirstMinimum(run.energies, j) && best == run.currents[j]
    ensures SameShape(best, initial) && EndTime(JobQueues(best)) == Ok(Min(run.energies))
  {
    RunAcceptance(draws, accept, run);
    RunCurrent(draws, accept, run, bestIndex);
  }

  /** SimulatedAnnealing, with the neighbour draws of iteration `k` given as
      `draws(k)` and the random acceptance of a non-improving move as `accept(k)`.
      The ghost `run` records the run, starting from `initialSolution`; the
      result is the first of its current solutions of the lowest end time,
      since the best only changes on a strictly lower energy. */
  method SimulatedAnnealing(tasks: seq<Task>, initialSolution: Solution, iterations: int,
                            draws: nat -> NeighborDraw, accept: nat -> bool)
    returns (r: Result<Solution>, ghost run: History)
    ensures r.Threw? <==> Flatten(initialSolution) == []
    ensures r.Threw? ==> r.error == InvalidOperation
    ensures r.Ok? ==> AnnealingRun(draws, accept, run) && run.currents[0] == initialSolution
    ensures r.Ok? ==> |run.proposals| == (if iterations < 0 then 0 else iterations)
    ensures r.Ok? ==> AcceptanceHistory(run.energies, run.proposals, accept)
    ensures r.Ok? ==> exists j :: 0 <= j < |run.currents| && FirstMinimum(run.energies, j) &&
                                 r.value == run.currents[j]
    ensures r.Ok? ==> SameShape(r.value, initialSolution) && EndTime(JobQueues(r.value)) == Ok(Min(run.energies))
  {
    var currentSolution := initialSolution;
    var bestSolution := currentSolution;
    var rating := CalculateEndTime(currentSolution);
    if rating.Threw? {
      return Threw(rating.error), History([], [], [], []);
    }
    var currentEnergy := rating.value;
    var bestEnergy := currentEnergy;
    run := History([currentSolution], [currentEnergy], [], []);
    RunStart(draws, accept, run);
    ghost var bestIndex := 0;
    var i := 0;
    while i < iterations
      invariant 0 <= i <= (if iterations < 0 then 0 else iterations)
      invariant AnnealingState(draws, accept, initialSolution, run, i, currentSolution, currentEnergy,
                               bestSolution, bestEnergy, bestIndex)
    {
      currentSolution, currentEnergy, bestSolution, bestEnergy, run, bestIndex :=
        Iterate(draws, accept, initialSolution, i, run, currentSolution, currentEnergy,
                bestSolution, bestEnergy, bestIndex);
      i := i + 1;
    }
    AnnealingResult(draws, accept, initialSolution, run, i, currentSolution, currentEnergy,
                    bestSolution, bestEnergy, bestIndex);
    return Ok(bestSolution), run;
  }

  /** The body of the loop of SimulatedAnnealing with its record: the
      iteration AnnealingStep performs extends the run by one, and the best
      solution stays one of the lowest end time. */
  method Iterate(draws: nat -> NeighborDraw, accept: nat -> bool, initialSolution: Solution, i: nat,
                 ghost run: History, currentSolution: Solution, currentEnergy: int,
                 bestSolution: Solution, bestEnergy: int, ghost bestIndex: nat)
    returns (nextSolution: Solution, nextEnergy: int, nextBest: Solution, nextBestEnergy: int,
             ghost nextRun: History, ghost nextBestIndex: nat)
    requires Flatten(initialSolution) != []
    requires AnnealingState(draws, accept, initialSolution, run, i, currentSolution, currentEnergy,
                            bestSolution, bestEnergy, bestIndex)
    ensures AnnealingState(draws, accept, initialSolution, nextRun, i + 1, nextSolution, nextEnergy,
                           nextBest, nextBestEnergy, nextBestIndex)
  {
    SameShapeTotalLength(currentSolution, run.currents[0]);
    ghost var neighbor;
    var newEnergy;
    HistoryAllocated(run);
    label BeforeStep:
    nextSolution, nextEnergy, nextBest, nextBestEnergy, newEnergy, neighbor :=
      AnnealingStep(currentSolution, currentEnergy, bestSolution, bestEnergy, draws(i), accept(i));
    RunKept@BeforeStep(run, draws, accept);
    Advance(draws, accept, run, neighbor, newEnergy, nextSolution, nextEnergy, bestIndex);
    nextBestIndex := bestIndex;
    if ShouldAcceptSolution(newEnergy - currentEnergy, accept(i)) && newEnergy < bestEnergy {
      nextBestIndex := i + 1;
    }
    nextRun := History(run.currents + [nextSolution], run.energies + [nextEnergy],
                       run.neighbors + [neighbor], run.proposals + [newEnergy]);
  }

  /** The rating input of a solution depends only on its tasks' fields. */
  twostate lemma JobsKept(s: Solution)
    requires unchanged(Elements(s))
    ensures JobQueues(s) == old(JobQueues(s))
  {
  }

  /** The minimum after appending `x`, and the last element of the result. */
  lemma AppendMin(s: seq<int>, x: int)
    requires s != []
    ensures Min(s + [x]) == if x < Min(s) then x else Min(s)
    ensures (s + [x])[|s|] == x
  {
    assert (s + [x])[..|s|] == s;
  }

  /** `j` is the first position of the smallest energy: everything before it is higher. */
  predicate FirstMinimum(energies: seq<int>, j: int)
  {
    0 <= j < |energies| && energies[j] == Min(energies) &&
    forall k :: 0 <= k < j ==> energies[k] > energies[j]
  }

  /** After appending `x`, the first minimum moves to `x` exactly when `x` is
      strictly lower than the old minimum; a tie keeps the earlier position. */
  lemma AppendFirstMinimum(s: seq<int>, j: int, x: int)
    requires FirstMinimum(s, j)
    ensures FirstMinimum(s + [x], if x < s[j] then |s| else j)
  {
    AppendMin(s, x);
    var t := s + [x];
    if x < s[j] {
      forall k | 0 <= k < |s|
        ensures t[k] > t[|s|]
      {
        assert t[k] == s[k] && s[k] in s;
      }
    } else {
      forall k | 0 <= k < j
        ensures t[k] > t[j]
      {
        assert t[k] == s[k];
      }
    }
  }
}
