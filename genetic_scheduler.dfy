/** The integer parts of the genetic scheduler: decoding a chromosome (a task
    list whose tasks carry their processor) into processor queues, building a
    random chromosome that prefers tasks whose dependencies are already placed,
    the makespan of a decoded schedule, the processor count the fitness decodes
    with, and the generation gate of the termination rule. */
module GeneticScheduler {
  import opened Collections
  import opened EndTimes
  import opened GeneticTask

  /** One queue of tasks per processor, in execution order. */
  type Schedule = seq<seq<Task>>

  // ---------------------------------------------------------------------------
  // Decoding.

  /** The tasks of `solution` whose processor is `p`, in list order. */
  function OnProcessor(solution: seq<Task>, p: int): (r: seq<Task>)
    reads solution
    ensures forall t :: t in r ==> t in solution && t.processor == p
    ensures forall i :: 0 <= i < |solution| && solution[i].processor == p ==> solution[i] in r
    decreases |solution|
  {
    if solution == [] then []
    else
      var last := solution[|solution| - 1];
      assert solution == solution[..|solution| - 1] + [last];
      OnProcessor(solution[..|solution| - 1], p) + (if last.processor == p then [last] else [])
  }

  /** The schedule DecodeSolution builds with `n` queues. */
  function Decoded(solution: seq<Task>, n: nat): (r: Schedule)
    reads solution
    ensures |r| == n && forall p :: 0 <= p < n ==> r[p] == OnProcessor(solution, p)
  {
    seq(n, p requires 0 <= p < n reads solution => OnProcessor(solution, p))
  }

  /** Every task's processor indexes one of `n` queues. */
  predicate ProcessorsBelow(solution: seq<Task>, n: int)
    reads solution
  {
    forall i :: 0 <= i < |solution| ==> 0 <= solution[i].processor < n
  }

  /** Decoding one more task appends it to the queue of its processor. */
  lemma DecodedAppend(init: seq<Task>, last: Task, n: nat)
    requires 0 <= last.processor < n
    ensures Decoded(init + [last], n) == Decoded(init, n)[last.processor := Decoded(init, n)[last.processor] + [last]]
  {
    var e, d, q := Decoded(init + [last], n), Decoded(init, n), last.processor;
    assert (init + [last])[..|init|] == init;
    forall p | 0 <= p < n ensures e[p] == d[q := d[q] + [last]][p] {
      assert e[p] == OnProcessor(init, p) + (if q == p then [last] else []);
    }
  }

  /** Decoding a list whose processors are in range loses and duplicates nothing. */
  lemma {:induction false} DecodedPartition(solution: seq<Task>, n: nat)
    requires ProcessorsBelow(solution, n)
    ensures multiset(Flatten(Decoded(solution, n))) == multiset(solution)
    ensures TotalLength(Decoded(solution, n)) == |solution|
    decreases |solution|
  {
    var e := Decoded(solution, n);
    if solution != [] {
      var init, last := solution[..|solution| - 1], solution[|solution| - 1];
      assert solution == init + [last];
      assert ProcessorsBelow(init, n) by {
        forall i | 0 <= i < |init| ensures 0 <= init[i].processor < n {
          assert init[i] == solution[i];
        }
      }
      DecodedPartition(init, n);
      DecodedAppend(init, last, n);
      FlattenAppend(Decoded(init, n), last.processor, last);
    } else {
      FlattenEmpty(e);
    }
    assert |multiset(Flatten(e))| == |Flatten(e)|;
  }

  /** DecodeSolution: `numberOfProcessors` empty queues, then each task appended
      to the queue its processor names; a processor with no queue is the
      list indexer's ArgumentOutOfRangeException. */
  method DecodeSolution(solution: seq<Task>, numberOfProcessors: int) returns (r: Result<Schedule>)
    ensures r.Ok? <==> ProcessorsBelow(solution, numberOfProcessors)
    ensures r.Threw? ==> r.error == ArgumentOutOfRange
    ensures r.Ok? ==> r.value == Decoded(solution, if numberOfProcessors < 0 then 0 else numberOfProcessors)
  {
    var schedule: Schedule := [];
    var i := 0;
    while i < numberOfProcessors
      invariant 0 <= i <= (if numberOfProcessors < 0 then 0 else numberOfProcessors)
      invariant |schedule| == i && forall p :: 0 <= p < i ==> schedule[p] == []
    {
      schedule := schedule + [[]];
      i := i + 1;
    }
    var n := |schedule|;
    assert n == if numberOfProcessors < 0 then 0 else numberOfProcessors;
    var k := 0;
    while k < |solution|
      invariant 0 <= k <= |solution| && |schedule| == n
      invariant ProcessorsBelow(solution[..k], n)
      invariant forall p :: 0 <= p < n ==> schedule[p] == OnProcessor(solution[..k], p)
    {
      var task := solution[k];
      if task.processor < 0 || task.processor >= |schedule| {
        return Threw(ArgumentOutOfRange);
      }
      assert solution[..k + 1][..k] == solution[..k] && solution[..k + 1][k] == task;
      schedule := schedule[task.processor := schedule[task.processor] + [task]];
      k := k + 1;
    }
    assert solution[..k] == solution;
    return Ok(schedule);
  }

  // ---------------------------------------------------------------------------
  // The random chromosome.

  /** The tasks of a list, as the HashSet built from it. */
  function TaskSet(tasks: seq<Task>): set<Task> {
    set t | t in tasks
  }

  /** The dependency lists of the tasks, as GetRandomSolution finds them (it
      changes only processors). */
  function DependencyMap(tasks: seq<Task>): (g: map<Task, seq<Task>>)
    reads TaskSet(tasks)`dependencies
  {
    map t | t in TaskSet(tasks) :: t.dependencies
  }

  /** Only the empty list has no tasks. */
  lemma NoTasks(tasks: seq<Task>)
    ensures TaskSet(tasks) == {} <==> tasks == []
  {
    if tasks != [] {
      assert tasks[0] in TaskSet(tasks);
    }
  }

  /** The dependency map has one entry per task, holding that task's list. */
  lemma DependencyMapEntries(tasks: seq<Task>)
    ensures DependencyMap(tasks).Keys == TaskSet(tasks)
    ensures forall t :: t in DependencyMap(tasks) ==> DependencyMap(tasks)[t] == t.dependencies
  {
  }

  /** No dependency in `deps` is still among the `remaining` tasks. */
  predicate Ready(deps: seq<Task>, remaining: set<Task>) {
    forall d :: d in deps ==> d !in remaining
  }

  /** A task GetRandomSolution may pick from `remaining` under the dependency
      lists `g`: a ready one, or any one when none is ready. */
  ghost predicate Pickable(g: map<Task, seq<Task>>, t: Task, remaining: set<Task>)
    requires t in g && remaining <= g.Keys
  {
    Ready(g[t], remaining) || forall u {:trigger Ready(g[u], remaining)} :: u in remaining ==> !Ready(g[u], remaining)
  }

  /** The tasks from position `i` on, the ones still remaining when position `i` was picked. */
  function Unpicked(r: seq<Task>, i: int): set<Task>
    requires 0 <= i <= |r|
  {
    set t | t in r[i..]
  }

  /** Every position holds a task that was pickable when it was picked. */
  ghost predicate PickOrder(g: map<Task, seq<Task>>, r: seq<Task>)
    requires TaskSet(r) <= g.Keys
  {
    forall i {:trigger Unpicked(r, i)} :: 0 <= i < |r| ==> Pickable(g, r[i], Unpicked(r, i))
  }

  /** Random.Next(n): a number in [0, n), or 0 when `n` is 0; a negative `n`
      is an ArgumentOutOfRangeException. */
  predicate Drawn(v: int, n: int) {
    if n == 0 then v == 0 else 0 <= v < n
  }

  /** The state of GetRandomSolution's loop: `solution` lists distinct tasks
      of `tasks`, exactly those not `remaining`, each pickable when picked. */
  ghost predicate PickedSoFar(g: map<Task, seq<Task>>, tasks: seq<Task>, solution: seq<Task>, remaining: set<Task>) {
    && g.Keys == TaskSet(tasks)
    && remaining <= TaskSet(tasks)
    && NoDuplicates(solution)
    && (forall t :: t in solution ==> t in tasks)
    && (forall t :: t in tasks ==> (t in solution <==> t !in remaining))
    && (forall i {:trigger Unpicked(solution, i)} :: 0 <= i < |solution| ==> Pickable(g, solution[i], Unpicked(solution, i) + remaining))
  }

  /** Picking `task` moves it from the remaining set to the end of the list;
      every earlier position saw the same tasks remaining as before. */
  lemma PickStep(g: map<Task, seq<Task>>, tasks: seq<Task>, solution: seq<Task>, remaining: set<Task>, task: Task)
    requires PickedSoFar(g, tasks, solution, remaining)
    requires task in remaining && Pickable(g, task, remaining)
    ensures PickedSoFar(g, tasks, solution + [task], remaining - {task})
  {
    var next := solution + [task];
    forall i | 0 <= i < |next|
      ensures Pickable(g, next[i], Unpicked(next, i) + (remaining - {task}))
    {
      if i < |solution| {
        assert next[i..] == solution[i..] + [task];
        assert Unpicked(next, i) + (remaining - {task}) == Unpicked(solution, i) + remaining;
      } else {
        assert next[i..] == [task];
        assert Unpicked(next, i) + (remaining - {task}) == remaining;
      }
    }
    assert NoDuplicates(next) by {
      forall i, j | 0 <= i < j < |next| ensures next[i] != next[j] {
        if j == |solution| {
          assert next[i] in solution;
        }
      }
    }
  }

  /** A list without duplicates has as many elements as its set. */
  lemma {:induction false} DistinctCount(r: seq<Task>)
    requires NoDuplicates(r)
    ensures |TaskSet(r)| == |r|
    decreases |r|
  {
    if r != [] {
      var rest := r[1..];
      assert NoDuplicates(rest) by {
        forall i, j | 0 <= i < j < |rest| ensures rest[i] != rest[j] {
          assert rest[i] == r[i + 1] && rest[j] == r[j + 1];
        }
      }
      DistinctCount(rest);
      assert r[0] !in rest by {
        forall i | 0 <= i < |rest| ensures rest[i] != r[0] {
          assert rest[i] == r[i + 1];
        }
      }
      assert TaskSet(r) == TaskSet(rest) + {r[0]};
    }
  }

  /** One round's choice: the ready tasks are computed, and a random ready one is
      taken, or a random remaining one when none is ready. */
  method PickTask(remainingTasks: set<Task>, ghost g: map<Task, seq<Task>>) returns (task: Task)
    requires remainingTasks != {} && remainingTasks <= g.Keys
    requires forall t :: t in g ==> t.dependencies == g[t]
    ensures task in remainingTasks && Pickable(g, task, remainingTasks)
  {
    var readyTasks := set t | t in remainingTasks && Ready(t.dependencies, remainingTasks);
    if readyTasks == {} {
      task :| task in remainingTasks;
      forall u | u in remainingTasks ensures !Ready(g[u], remainingTasks) {
        assert u !in readyTasks && u.dependencies == g[u];
      }
    } else {
      task :| task in readyTasks;
      assert task.dependencies == g[task];
    }
  }

  /** When nothing remains, the picked list holds every task exactly once, each
      pickable when it was picked. */
  lemma PickedAll(g: map<Task, seq<Task>>, tasks: seq<Task>, solution: seq<Task>)
    requires PickedSoFar(g, tasks, solution, {})
    ensures NoDuplicates(solution) && TaskSet(solution) == TaskSet(tasks) && |solution| == |TaskSet(tasks)|
    ensures PickOrder(g, solution)
  {
    assert forall i :: 0 <= i <= |solution| ==> Unpicked(solution, i) + {} == Unpicked(solution, i);
    DistinctCount(solution);
  }

  /** Before the first pick every task remains. */
  lemma PickedNone(g: map<Task, seq<Task>>, tasks: seq<Task>)
    requires g.Keys == TaskSet(tasks)
    ensures PickedSoFar(g, tasks, [], TaskSet(tasks))
  {
  }

  /** One round of GetRandomSolution after the pick: the task gets a random
      processor, is appended to the list and leaves the remaining set. */
  method PlaceTask(ghost g: map<Task, seq<Task>>, ghost tasks: seq<Task>, solution: seq<Task>, remainingTasks: set<Task>,
                   task: Task, numberOfProcessors: int)
    returns (nextSolution: seq<Task>, nextRemaining: set<Task>)
    requires numberOfProcessors >= 0
    requires PickedSoFar(g, tasks, solution, remainingTasks)
    requires task in remainingTasks && Pickable(g, task, remainingTasks)
    requires forall t :: t in solution ==> Drawn(t.processor, numberOfProcessors)
    modifies task`processor
    ensures nextSolution == solution + [task] && nextRemaining == remainingTasks - {task}
    ensures PickedSoFar(g, tasks, nextSolution, nextRemaining)
    ensures forall t :: t in nextSolution ==> Drawn(t.processor, numberOfProcessors)
  {
    var processor: int;
    if numberOfProcessors == 0 {
      processor := 0;
    } else {
      processor :| 0 <= processor < numberOfProcessors;
    }
    PickStep(g, tasks, solution, remainingTasks, task);
    assert task !in solution;
    task.processor := processor;
    nextSolution := solution + [task];
    nextRemaining := remainingTasks - {task};
  }

  /** GetRandomSolution: while tasks remain, pick any ready one (any remaining
      one when none is ready), give it a random processor, append it and drop it
      from the remaining set. The random picks are nondeterministic choices. */
  method GetRandomSolution(tasks: seq<Task>, numberOfProcessors: int) returns (r: Result<seq<Task>>)
    modifies TaskSet(tasks)`processor
    ensures r.Threw? <==> numberOfProcessors < 0 && tasks != []
    ensures r.Threw? ==> r.error == ArgumentOutOfRange
    ensures r.Ok? ==> NoDuplicates(r.value) && TaskSet(r.value) == TaskSet(tasks) && |r.value| == |TaskSet(tasks)|
    ensures r.Ok? ==> forall t :: t in tasks ==> Drawn(t.processor, numberOfProcessors)
    ensures r.Ok? ==> PickOrder(DependencyMap(tasks), r.value)
  {
    ghost var g := DependencyMap(tasks);
    DependencyMapEntries(tasks);
    var solution: seq<Task> := [];
    var remainingTasks := TaskSet(tasks);
    PickedNone(g, tasks);
    while |remainingTasks| > 0
      invariant PickedSoFar(g, tasks, solution, remainingTasks)
      invariant forall t :: t in g ==> t.dependencies == g[t]
      invariant forall t :: t in solution ==> Drawn(t.processor, numberOfProcessors)
      invariant numberOfProcessors < 0 ==> solution == []
      decreases |remainingTasks|
    {
      var task := PickTask(remainingTasks, g);
      if numberOfProcessors < 0 {
        return Threw(ArgumentOutOfRange);
      }
      solution, remainingTasks := PlaceTask(g, tasks, solution, remainingTasks, task, numberOfProcessors);
    }
    assert remainingTasks == {};
    PickedAll(g, tasks, solution);
    assert DependencyMap(tasks) == g;
    assert forall t :: t in tasks ==> t in solution;
    NoTasks(tasks);
    return Ok(solution);
  }

  /** Every dependency of a listed task is listed too, and `rank` drops along
      every dependency: the dependency relation is closed and acyclic. */
  ghost predicate ClosedAcyclic(g: map<Task, seq<Task>>, rank: Task -> nat) {
    forall t, d :: t in g && d in g[t] ==> d in g && rank(d) < rank(t)
  }

  /** A task of lowest rank in a non-empty set. */
  lemma {:induction false} LowestRank(tasks: set<Task>, rank: Task -> nat) returns (u: Task)
    requires tasks != {}
    ensures u in tasks && forall v :: v in tasks ==> rank(u) <= rank(v)
    decreases |tasks|
  {
    var x :| x in tasks;
    if tasks == {x} {
      u := x;
    } else {
      var w := LowestRank(tasks - {x}, rank);
      u := if rank(x) <= rank(w) then x else w;
    }
  }

  /** On a closed, acyclic dependency relation a pick order never falls back to
      a task that is not ready, so every task comes after all its dependencies. */
  lemma DependenciesFirst(g: map<Task, seq<Task>>, r: seq<Task>, rank: Task -> nat)
    requires TaskSet(r) == g.Keys && PickOrder(g, r)
    requires ClosedAcyclic(g, rank)
    ensures forall i :: 0 <= i < |r| ==> Ready(g[r[i]], Unpicked(r, i))
    ensures forall i, d :: 0 <= i < |r| && d in g[r[i]] ==> d in r[..i]
  {
    forall i | 0 <= i < |r| ensures Ready(g[r[i]], Unpicked(r, i)) {
      var remaining := Unpicked(r, i);
      assert r[i..][0] == r[i];
      assert r[i] in remaining;
      var u := LowestRank(remaining, rank);
      assert Ready(g[u], remaining) by {
        forall d | d in g[u] ensures d !in remaining {
          assert rank(d) < rank(u);
        }
      }
      assert Pickable(g, r[i], remaining);
    }
    forall i, d | 0 <= i < |r| && d in g[r[i]] ensures d in r[..i] {
      assert Ready(g[r[i]], Unpicked(r, i));
      assert d in TaskSet(r);
      assert r == r[..i] + r[i..];
      assert d !in r[i..];
    }
  }

  // ---------------------------------------------------------------------------
  // The makespan.

  /** The evaluator's input of one queue: each task with its current duration and dependencies.
      The annealing scheduler has the same two functions over its own Task class;
      the two Task classes share no supertype, so each scheduler keeps its own. */
  function JobQueue(q: seq<Task>): (r: seq<Job<Task>>)
    reads q
    ensures |r| == |q|
    ensures forall i :: 0 <= i < |q| ==> r[i] == Job(q[i], q[i].duration, q[i].dependencies)
  {
    seq(|q|, i requires 0 <= i < |q| reads q => Job(q[i], q[i].duration, q[i].dependencies))
  }

  /** The evaluator's input of a whole schedule. */
  function JobQueues(s: Schedule): (r: Queues<Task>)
    reads Elements(s)
    ensures |r| == |s|
    ensures forall p :: 0 <= p < |s| ==> r[p] == JobQueue(s[p])
    decreases |s|
  {
    if s == [] then []
    else
      assert forall p :: 1 <= p < |s| ==> s[1..][p - 1] == s[p];
      assert forall i :: 0 <= i < |s[0]| ==> s[0][i] in Elements(s);
      [JobQueue(s[0])] + JobQueues(s[1..])
  }

  /** CalculateMakespan: the end-time recurrence over the schedule's queues, with
      every dependency not seen yet entered as 0, then the largest value of the
      dictionary. Enumerable.Max throws on an empty dictionary, which happens
      exactly when no task is scheduled. */
  method CalculateMakespan(schedule: Schedule) returns (r: Result<int>)
    ensures r.Threw? <==> Flatten(schedule) == []
    ensures r.Threw? ==> r.error == InvalidOperation
    ensures r.Ok? ==> IsMaxValue(RunAllRecording(map[], JobQueues(schedule)), r.value)
  {
    var taskEndTime := RecordSchedule(schedule);
    ghost var s := JobQueues(schedule);
    RecordingFacts(s, schedule);
    if taskEndTime == map[] {
      return Threw(InvalidOperation);
    }
    var makespan := MaxValue(taskEndTime);
    assert JobQueues(schedule) == s;
    return Ok(makespan);
  }

  /** With non-negative durations, CalculateMakespan's value is the annealing
      rating CalculateEndTime gives the same queues. */
  lemma MakespanIsEndTime(schedule: Schedule, v: int)
    requires NonNegativeDurations(JobQueues(schedule))
    requires IsMaxValue(RunAllRecording(map[], JobQueues(schedule)), v)
    ensures EndTime(JobQueues(schedule)) == Ok(v)
  {
    var s := JobQueues(schedule);
    RecordingFacts(s, schedule);
    EvaluatorsAgree(s);
    MaxValueUnique(RunAllRecording(map[], s), v, EndTime(s).value);
  }

  /** The recurrence records nothing exactly when no task is scheduled. */
  lemma RecordingFacts(s: Queues<Task>, schedule: Schedule)
    requires s == JobQueues(schedule)
    ensures RunAllRecording(map[], s) == map[] <==> Flatten(schedule) == []
    ensures EndTime(s).Threw? <==> Flatten(schedule) == []
  {
    RecordingEmpty(s);
    IdsFlatten(s, schedule);
    assert |Flatten(s)| == |Flatten(schedule)|;
  }

  /** The dictionary loops of CalculateMakespan. */
  method RecordSchedule(schedule: Schedule) returns (taskEndTime: map<Task, int>)
    ensures taskEndTime == RunAllRecording(map[], JobQueues(schedule))
  {
    ghost var s := JobQueues(schedule);
    taskEndTime := map[];
    var p := 0;
    while p < |schedule|
      invariant 0 <= p <= |schedule|
      invariant RunAllRecording(taskEndTime, s[p..]) == RunAllRecording(map[], s)
    {
      RecordingQueueNext(taskEndTime, s, p);
      taskEndTime := RecordQueue(taskEndTime, schedule[p]);
      p := p + 1;
    }
    assert s[p..] == [];
    assert s == JobQueues(schedule);
  }

  /** The per-processor loop of CalculateMakespan: walks one queue, carrying the end
      time of the previous task on that processor. */
  method RecordQueue(m: map<Task, int>, processor: seq<Task>) returns (taskEndTime: map<Task, int>)
    ensures taskEndTime == RunQueueRecording(m, 0, JobQueue(processor))
  {
    ghost var q := JobQueue(processor);
    taskEndTime := m;
    var currentTime := 0;
    var i := 0;
    while i < |processor|
      invariant 0 <= i <= |processor|
      invariant RunQueueRecording(taskEndTime, currentTime, q[i..]) == RunQueueRecording(m, 0, q)
    {
      var task := processor[i];
      assert q[i..][0] == Job(task, task.duration, task.dependencies) && q[i..][1..] == q[i + 1..];
      taskEndTime := RecordTask(taskEndTime, currentTime, task);
      currentTime := taskEndTime[task];
      i := i + 1;
    }
    assert q[i..] == [];
  }

  /** One task of the per-processor loop: enter the task with 0 if absent, enter its
      missing dependencies, then store max(processor time, dependencies' end) plus the
      duration as its end time. */
  method RecordTask(m: map<Task, int>, currentTime: int, task: Task) returns (taskEndTime: map<Task, int>)
    ensures taskEndTime == VisitRecording(m, currentTime, Job(task, task.duration, task.dependencies))
    ensures task in taskEndTime
  {
    taskEndTime := m;
    if task !in taskEndTime {
      taskEndTime := taskEndTime[task := 0];
    }
    var dependenciesEndTime := 0;
    if |task.dependencies| > 0 {
      taskEndTime, dependenciesEndTime := RecordDependencyEnds(taskEndTime, task.dependencies);
    }
    var taskStartTime := Max(currentTime, dependenciesEndTime);
    RecordingVisit(m, currentTime, Job(task, task.duration, task.dependencies), taskEndTime, dependenciesEndTime);
    taskEndTime := taskEndTime[task := taskStartTime + task.duration];
  }

  /** The Max over the dependencies in CalculateMakespan: each dependency without
      an entry is entered with 0, and the largest entry read is returned. */
  method RecordDependencyEnds(m: map<Task, int>, deps: seq<Task>) returns (r: map<Task, int>, dependenciesEnd: int)
    requires deps != []
    ensures r == RecordDependencies(m, deps)
    ensures dependenciesEnd == DependenciesEnd(m, deps)
  {
    r := m;
    dependenciesEnd := 0;
    var k := 0;
    while k < |deps|
      invariant 0 <= k <= |deps|
      invariant r == RecordDependencies(m, deps[..k])
      invariant k > 0 ==> dependenciesEnd == DependenciesEnd(m, deps[..k])
    {
      var dependency := deps[k];
      RecordAppend(m, deps[..k], dependency);
      RecordedEntries(m, deps[..k]);
      if dependency !in r {
        r := r[dependency := 0];
      }
      assert r[dependency] == Lookup(m, dependency);
      assert deps[..k + 1] == deps[..k] + [dependency];
      assert deps[..k + 1][..k] == deps[..k];
      dependenciesEnd := if k == 0 then r[dependency] else Max(dependenciesEnd, r[dependency]);
      k := k + 1;
    }
    assert deps[..k] == deps;
  }

  /** A dictionary has one largest value. */
  lemma MaxValueUnique(m: map<Task, int>, v: int, w: int)
    requires IsMaxValue(m, v) && IsMaxValue(m, w)
    ensures v == w
  {
    var k :| k in m && m[k] == v;
    var k' :| k' in m && m[k'] == w;
  }

  /** `Values.Max()` of a dictionary with at least one entry. */
  method MaxValue(m: map<Task, int>) returns (v: int)
    requires m != map[]
    ensures IsMaxValue(m, v)
  {
    var first :| first in m;
    v := m[first];
    var unseen := m.Keys - {first};
    while unseen != {}
      invariant unseen <= m.Keys
      invariant first in m && v in m.Values
      invariant forall k :: k in m && k !in unseen ==> m[k] <= v
      decreases |unseen|
    {
      var k :| k in unseen;
      if m[k] > v {
        v := m[k];
      }
      unseen := unseen - {k};
    }
  }

  // ---------------------------------------------------------------------------
  // The fitness and the termination rule.

  /** `solution.Max(t => t.Processor) + 1`, or the exception Enumerable.Max throws
      on an empty list. */
  function ProcessorCount(solution: seq<Task>): (r: Result<int>)
    reads solution
    ensures r.Threw? <==> solution == []
    ensures r.Threw? ==> r.error == InvalidOperation
    ensures r.Ok? ==> forall i :: 0 <= i < |solution| ==> solution[i].processor < r.value
    ensures r.Ok? ==> exists i :: 0 <= i < |solution| && solution[i].processor == r.value - 1
    decreases |solution|
  {
    if solution == [] then Threw(InvalidOperation)
    else if |solution| == 1 then Ok(solution[0].processor + 1)
    else
      var rest := ProcessorCount(solution[1..]);
      assert solution == [solution[0]] + solution[1..];
      Ok(Max(solution[0].processor + 1, rest.value))
  }

  /** No task has a negative processor. */
  predicate NonNegativeProcessors(solution: seq<Task>)
    reads solution
  {
    forall i :: 0 <= i < |solution| ==> solution[i].processor >= 0
  }

  /** With max(Processor) + 1 queues, decoding stays in range exactly when no
      processor is negative. */
  lemma CountCoversProcessors(solution: seq<Task>)
    requires solution != []
    ensures ProcessorsBelow(solution, ProcessorCount(solution).value) <==> NonNegativeProcessors(solution)
  {
    assert forall i :: 0 <= i < |solution| ==> solution[i] in solution;
  }

  /** CalculateFitness up to the reciprocal: decode with max(Processor) + 1
      queues, then take the makespan. The empty list is Enumerable.Max's
      InvalidOperationException; a negative processor is the decoder's
      ArgumentOutOfRangeException; otherwise every task is scheduled and the
      makespan exists. */
  method CalculateFitness(solution: seq<Task>) returns (r: Result<int>)
    ensures r.Threw? <==> solution == [] || !NonNegativeProcessors(solution)
    ensures solution == [] ==> r == Threw(InvalidOperation)
    ensures solution != [] && r.Threw? ==> r.error == ArgumentOutOfRange
    ensures r.Ok? ==> (ProcessorCount(solution).Ok? && ProcessorCount(solution).value >= 1 &&
                       IsMaxValue(RunAllRecording(map[], JobQueues(Decoded(solution, ProcessorCount(solution).value))), r.value))
  {
    var count := ProcessorCount(solution);
    if count.Threw? {
      return Threw(count.error);
    }
    var numberOfProcessors := count.value;
    CountCoversProcessors(solution);
    var schedule := DecodeSolution(solution, numberOfProcessors);
    if schedule.Threw? {
      assert !NonNegativeProcessors(solution);
      return Threw(schedule.error);
    }
    assert 0 <= solution[0].processor < numberOfProcessors;
    ghost var decoded := Decoded(solution, numberOfProcessors);
    assert schedule.value == decoded;
    DecodedPartition(solution, numberOfProcessors);
    var makespan := CalculateMakespan(schedule.value);
    assert ProcessorCount(solution) == count && Decoded(solution, numberOfProcessors) == decoded;
    assert makespan.Ok? && IsMaxValue(RunAllRecording(map[], JobQueues(decoded)), makespan.value);
    return makespan;
  }

  /** The generation limit of TerminateAlgorithm. */
  const MaxGenerationsWithoutImprovement := 50

  /** TerminateAlgorithm, with `topTwoWithinThreshold` standing for the
      floating-point comparison of the current population's best fitness with
      its second-best one (their difference is below 0.001): it stops only once
      the generation limit is reached, and from then on exactly when the two
      best fitnesses are that close. */
  function TerminateAlgorithm(currentGeneration: int, topTwoWithinThreshold: bool): (r: bool)
    ensures currentGeneration < MaxGenerationsWithoutImprovement ==> !r
    ensures currentGeneration >= MaxGenerationsWithoutImprovement ==> (r <==> topTwoWithinThreshold)
  {
    if currentGeneration >= MaxGenerationsWithoutImprovement then topTwoWithinThreshold else false
  }
}
