# Task scheduling on parallel processors: simulated annealing and a genetic chromosome

This project is a Dafny model of the integer scheduling logic of two small C#
programs. Both schedule tasks on a number of identical processors. Each task
has a duration and a list of tasks it depends on, and tasks are compared by
reference.

- **The simulated-annealing scheduler** (`SchedulingProblemWyzarzanie`) works in
  four steps:
  - It builds a random initial solution: one queue per processor, where a
    task is placed only once all of its dependencies are placed.
  - It rates a solution by its end time, using the end-time recurrence below.
  - It proposes a neighbour: a deep copy of the solution with two tasks
    swapped.
  - It accepts or rejects each neighbour by its change in end time, and
    returns the first of the lowest-rated solutions it accepted (the initial
    one included): the best changes only on a strictly lower end time.
    Rejected neighbours never become the best.
- **The genetic scheduler** (`GeneticAlgorithm`) treats a chromosome as a list
  of tasks, each carrying its processor number.
  - The list is decoded into processor queues.
  - A random chromosome is built by preferring tasks whose dependencies are
    already listed.
  - A decoded schedule is rated by its makespan.
  - The fitness decodes with `max(processor) + 1` queues.
  - The termination rule stops only after a fixed number of generations, and
    then once the best and second-best fitness of the current population are
    close. Despite the constant's name, it compares two members of one
    population, not one generation with the previous one.

Modules:

- `AnnealingTask` and `GeneticTask` are the two task classes. Their fields are
  updated in place: the dependency list and the genetic processor.
- `Collections` holds the shared helpers on lists of queues:
  - `SelectMany` flattening;
  - `List.Remove`;
  - position swaps;
  - the `Result`/`Exception` pair that stands for a thrown .NET exception.
- `EndTimes` holds the end-time recurrence both programs use. Queues are
  walked in processor order, with a processor clock that starts at 0. A task
  starts at the later of two times: the clock, and the largest end time
  already recorded for one of its dependencies (0 if none is recorded). It
  ends `duration` later.
  - The two programs differ in one detail: the genetic makespan also records
    every missing dependency with the value 0.
  - `EvaluatorsAgree` and `MakespanIsEndTime` prove that, with non-negative
    durations, both evaluators give the same value.
  - `EndTimesRespectSchedule` proves which precedence bounds the recorded end
    times satisfy.
- `AnnealingScheduler` and `GeneticScheduler` model the two `Program.cs`
  files. The loops are methods with invariants, proved against the
  specification functions (`Place`, `NeighborOrder`, `EndTime`,
  `RunAllRecording`, `Decoded`, `PickOrder`).

The random draws are inputs:

- **Annealing draws** are explicit parameters: raw numbers reduced into
  range, or a per-iteration function of the iteration number.
- **The genetic random chromosome** makes nondeterministic choices, so the
  contract holds for every choice.

Observed behaviour of the neighbour move, modelled as the code behaves:

- The deep copy gives every copied task a new list that holds the *original*
  tasks as dependencies, never the copies.
- As a result, the dependency check before the swap never finds a conflict.
- Removing the swapped copies from the dependency lists removes nothing.
- Every dependency counts as missing from the new solution.
- Overall, the two drawn tasks change places exactly when:
  - both drawn queues are non-empty, and
  - no task in the solution has a dependency.

  `NeighborOrder` states this, and `SwapIfValid` and `GetNeighborSolution` are
  proved against it.
- `NeighborEnergy` follows from this: the rating of a neighbour is the largest
  processor load, whatever dependencies the tasks declare.

## Model

| member | source | states |
|---|---|---|
| AnnealingTask.Task.constructor | SchedulingProblemWyzarzanie/Task.cs:16-21 | a new task has the given name and duration and an empty dependency list |
| AnnealingTask.Task.AddDependencies | SchedulingProblemWyzarzanie/Program.cs:164 | `AddRange` appends the given tasks, in order, after the existing dependencies |
| AnnealingTask.Task.RemoveDependencies | SchedulingProblemWyzarzanie/Program.cs:197 | `RemoveAll` leaves exactly the dependencies other than the two swapped tasks, in their order |
| AnnealingTask.Without | SchedulingProblemWyzarzanie/Program.cs:197 | the kept dependencies are exactly those of the list other than the two tasks (both directions); the list never grows; a list containing neither task is unchanged |
| AnnealingTask.WithoutAppend | SchedulingProblemWyzarzanie/Program.cs:197 | removal works element by element from the front, so it distributes over appending one dependency |
| GeneticTask.Task.constructor | GeneticAlgorithm/Task.cs:17-23 | a new task has the given name and duration, no dependencies, and processor 0 |
| Collections.Flatten | SchedulingProblemWyzarzanie/Program.cs:240 | `SelectMany` holds as many tasks as all the queues together |
| Collections.FlattenMember | SchedulingProblemWyzarzanie/Program.cs:110 | a task is in the flattened solution exactly when some queue holds it |
| Collections.FlattenEmpty | SchedulingProblemWyzarzanie/Program.cs:240 | the flattened solution is empty exactly when every queue is empty |
| Collections.FlattenAppend | SchedulingProblemWyzarzanie/Program.cs:99 | adding a task to one queue adds exactly that task to the solution's multiset of tasks |
| Collections.RemoveFirst | SchedulingProblemWyzarzanie/Program.cs:100 | `List.Remove` takes away exactly one occurrence of a present task, leaves a list without it unchanged, and introduces nothing |
| Collections.Swap | SchedulingProblemWyzarzanie/Program.cs:191-192 | the two positions exchange their tasks; every other position and every queue length stay the same |
| Collections.SwapBack | SchedulingProblemWyzarzanie/Program.cs:206-210 | writing the two original tasks back restores the solution before the swap |
| Collections.SwapDistinct | SchedulingProblemWyzarzanie/Program.cs:191-192 | a swap never makes one task occupy two positions |
| Collections.SwapElements | SchedulingProblemWyzarzanie/Program.cs:191-192 | a swap keeps the set of tasks in the solution |
| Collections.AppendDistinct | SchedulingProblemWyzarzanie/Program.cs:157-168 | appending a queue of new, mutually distinct tasks keeps every task at a single position |
| EndTimes.DependenciesEnd | SchedulingProblemWyzarzanie/Program.cs:231 | a task without dependencies waits for time 0 |
| EndTimes.DependenciesEndIsMax | SchedulingProblemWyzarzanie/Program.cs:231 | the dependencies' end is at least every looked-up dependency end time (0 when not recorded), and some dependency attains it |
| EndTimes.EndTime | SchedulingProblemWyzarzanie/Program.cs:218-241 | the rating throws InvalidOperationException exactly when no task is scheduled |
| EndTimes.EndTimeIsMax | SchedulingProblemWyzarzanie/Program.cs:240 | the rating is the recorded end time of some scheduled task and no scheduled task ends later |
| EndTimes.RunAllKeys | SchedulingProblemWyzarzanie/Program.cs:222-238 | the dictionary ends up holding exactly the starting keys and the scheduled tasks |
| EndTimes.QueueEndTimes | SchedulingProblemWyzarzanie/Program.cs:224-237 | in one queue of distinct new tasks: older entries are kept; each task ends at least `duration` after its predecessor (after the start time when first); each task ends at least `duration` after every dependency recorded before the queue or placed earlier in the queue |
| EndTimes.ScheduleEndTimes | SchedulingProblemWyzarzanie/Program.cs:222-238 | the same bounds over all queues, plus: every task ends at least `duration` after each dependency scheduled in an earlier queue |
| EndTimes.EndTimesRespectSchedule | SchedulingProblemWyzarzanie/Program.cs:218-241 | for a schedule without repeated tasks, every task ends at least `duration` after each of: its queue predecessor; each dependency earlier in its queue; each dependency in an earlier queue. No task ends after the rating |
| EndTimes.QueueLoads | SchedulingProblemWyzarzanie/Program.cs:224-237 | in a queue whose dependencies are never recorded, each task ends at the queue's start plus the durations up to and including its own |
| EndTimes.ScheduleLoads | SchedulingProblemWyzarzanie/Program.cs:222-238 | with no task depending on a scheduled task, each task ends at the sum of the durations up to it in its queue |
| EndTimes.LoadPrefix | SchedulingProblemWyzarzanie/Program.cs:232-236 | with non-negative durations, the load of a queue prefix lies between 0 and the whole queue's load |
| EndTimes.EndTimeIsLargestLoad | SchedulingProblemWyzarzanie/Program.cs:218-241 | for a schedule with non-negative durations and no task depending on a scheduled task, the rating is the largest per-processor sum of durations |
| EndTimes.MaxLoad | SchedulingProblemWyzarzanie/Program.cs:218-241 | the reference value for the rating: no queue's load exceeds it and some queue's load equals it |
| EndTimes.RecordedEntries | GeneticAlgorithm/Program.cs:219-226 | the genetic dependency loop adds exactly the missing dependencies, each with 0, and changes no existing entry |
| EndTimes.RecordAppend | GeneticAlgorithm/Program.cs:220-225 | the genetic dependency loop taken one dependency further enters that dependency if it is missing |
| EndTimes.RecordingVisit | GeneticAlgorithm/Program.cs:216-229 | one genetic visit stores max(processor time, dependencies' end) plus the duration over the dictionary with the dependencies entered |
| EndTimes.RecordingQueueNext | GeneticAlgorithm/Program.cs:210-233 | the processor loop of the makespan handles one queue at a time |
| EndTimes.QueueLoopStep | SchedulingProblemWyzarzanie/Program.cs:226-237 | one iteration of the task loop (enter the task, store its end time, advance the processor clock) leaves the rest of the queue leading to the same dictionary |
| EndTimes.VisitExtends | GeneticAlgorithm/Program.cs:216-231 | one genetic visit stores the same end time as the annealing visit, and the extra dependency entries are zeros |
| EndTimes.RunAllExtends | GeneticAlgorithm/Program.cs:206-236 | the genetic dictionary holds every annealing entry with the same value, and 0 for each extra key |
| EndTimes.RunAllRecordingIdle | GeneticAlgorithm/Program.cs:210-233 | queues without tasks leave the genetic dictionary unchanged |
| EndTimes.RunAllNonNegative | SchedulingProblemWyzarzanie/Program.cs:222-238 | with non-negative durations every recorded end time is non-negative |
| EndTimes.ExtendedMaximum | GeneticAlgorithm/Program.cs:235 | extra zero entries never raise a non-negative maximum |
| EndTimes.RatingIsMaxValue | SchedulingProblemWyzarzanie/Program.cs:240 | with non-negative durations, the rating is the largest value in the whole annealing dictionary, and it is non-negative |
| EndTimes.RecordingEmpty | GeneticAlgorithm/Program.cs:235 | the genetic dictionary is empty exactly when no task is scheduled |
| EndTimes.EvaluatorsAgree | GeneticAlgorithm/Program.cs:206-236 | with non-negative durations, the genetic makespan dictionary's largest value is the annealing rating of the same queues |
| AnnealingScheduler.IsTaskAssigned | SchedulingProblemWyzarzanie/Program.cs:108-111 | true exactly when some processor queue contains the task, i.e. when the task is in the flattened solution |
| AnnealingScheduler.EmptyQueues | SchedulingProblemWyzarzanie/Program.cs:82-84 | `numProcessors` queues, all empty |
| AnnealingScheduler.PlacementRound | SchedulingProblemWyzarzanie/Program.cs:88-101 | one loop iteration leads to the same final outcome as the whole loop, and never adds an unassigned task |
| AnnealingScheduler.GetInitialSolution | SchedulingProblemWyzarzanie/Program.cs:79-105 | a negative processor count is Enumerable.Range's ArgumentOutOfRangeException; otherwise the result is the placement loop run from empty queues on the draws |
| AnnealingScheduler.PlaceStep | SchedulingProblemWyzarzanie/Program.cs:96-101 | placing a task whose dependencies are assigned keeps three facts: the placed and the unassigned tasks together are the input tasks; placed tasks have their dependencies placed; queues respect dependency order |
| AnnealingScheduler.AppendKeepsPlaced | SchedulingProblemWyzarzanie/Program.cs:96-99 | appending a task whose dependencies are all assigned keeps every placed task's dependencies placed |
| AnnealingScheduler.AppendKeepsOrder | SchedulingProblemWyzarzanie/Program.cs:96-99 | appending a new, ready task keeps each queue listing tasks after their dependencies in that queue |
| AnnealingScheduler.PlaceFacts | SchedulingProblemWyzarzanie/Program.cs:88-104 | from any state satisfying the loop invariant: a run fails exactly when there are no processors but there is a task and a draw; a built or unfinished run keeps the number of queues and the invariant |
| AnnealingScheduler.InitialSolutionProperties | SchedulingProblemWyzarzanie/Program.cs:79-105 | a built solution has one queue per processor and holds exactly the input tasks (as a multiset); every dependency of a task is placed and is one of the input tasks; for duplicate-free input each queue lists a task after its dependencies; a run fails exactly when there are zero processors, a task and a draw |
| AnnealingScheduler.DependenciesAmongTasks | SchedulingProblemWyzarzanie/Program.cs:96-101 | once every task is placed with its dependencies placed, the dependencies of the input tasks are themselves input tasks |
| AnnealingScheduler.TopologicalOrderIsPlaced | SchedulingProblemWyzarzanie/Program.cs:88-102 | with at least one processor and tasks listed after their dependencies, always drawing the first unassigned task finishes after one draw per task |
| AnnealingScheduler.PlaceInOrder | SchedulingProblemWyzarzanie/Program.cs:88-102 | from any prefix of a dependency-ordered list already placed, first-choice draws finish the solution |
| AnnealingScheduler.OrderedTaskIsReady | SchedulingProblemWyzarzanie/Program.cs:96 | the next task of a dependency-ordered list passes the dependency check once its predecessors are placed |
| AnnealingScheduler.PlaceFirst | SchedulingProblemWyzarzanie/Program.cs:88-101 | the draw (0, 0) on a ready first task appends it to processor 0 and removes it from the unassigned list |
| AnnealingScheduler.CalculateEndTime | SchedulingProblemWyzarzanie/Program.cs:218-241 | the dictionary loops compute the end-time recurrence's rating of the solution's queues; the method throws exactly when no task is scheduled |
| AnnealingScheduler.CopySolution | SchedulingProblemWyzarzanie/Program.cs:156-168 | the copy has the same shape; at each position is a new task with the same name, duration and dependency list; no task occupies two positions |
| AnnealingScheduler.CopyQueue | SchedulingProblemWyzarzanie/Program.cs:160-166 | one queue's copy: one new, distinct task per position with the same name, duration and dependency list |
| AnnealingScheduler.RemoveFromDependencies | SchedulingProblemWyzarzanie/Program.cs:195-198 | every task's dependency list loses exactly the two swapped tasks and is otherwise unchanged |
| AnnealingScheduler.NeighborOrder | SchedulingProblemWyzarzanie/Program.cs:170-212 | the reference arrangement of the neighbour move keeps the solution's shape (queue count and lengths) and its set of tasks |
| AnnealingScheduler.OutsideDependencies | SchedulingProblemWyzarzanie/Program.cs:200-203 | when no dependency is a task of the solution, the violation check holds exactly when some task has a dependency |
| AnnealingScheduler.SwapViolation | SchedulingProblemWyzarzanie/Program.cs:200-206 | after the swap on a copy, the violation check holds exactly when the solution has a dependency |
| AnnealingScheduler.SwapOutside | SchedulingProblemWyzarzanie/Program.cs:191-206 | on such a swapped copy, the removal leaves every list as it is, the tasks stay the same, and dependencies stay outside |
| AnnealingScheduler.SwapAndUpdate | SchedulingProblemWyzarzanie/Program.cs:190-198 | the result is the swapped solution and no dependency list changes |
| AnnealingScheduler.UndoSwap | SchedulingProblemWyzarzanie/Program.cs:206-210 | putting the two tasks back restores the solution before the swap |
| AnnealingScheduler.SwapIfValid | SchedulingProblemWyzarzanie/Program.cs:182-211 | on a copy whose dependencies lie outside it: the result is the swapped solution when no task has a dependency, and the unswapped one otherwise; no dependency list changes |
| AnnealingScheduler.CopyHasDependencies | SchedulingProblemWyzarzanie/Program.cs:163-164 | a copy has a dependency exactly when the original has |
| AnnealingScheduler.SwapCopy | SchedulingProblemWyzarzanie/Program.cs:191-192 | swapping the same positions of a copy and its original keeps one a copy of the other |
| AnnealingScheduler.SwapCopyFacts | SchedulingProblemWyzarzanie/Program.cs:185-192 | the swap of a copy is a copy of the swap, keeps every task at a single position, and keeps dependencies outside |
| AnnealingScheduler.NeighborOfCopy | SchedulingProblemWyzarzanie/Program.cs:170-212 | the move applied to a copy is a copy of the move applied to the original |
| AnnealingScheduler.MoveInCopy | SchedulingProblemWyzarzanie/Program.cs:170-212 | the draws and the swap attempt on the copy give a copy of the reference arrangement, with distinct tasks and dependencies outside it; the tasks are those of the copy it started from |
| AnnealingScheduler.GetNeighborSolution | SchedulingProblemWyzarzanie/Program.cs:152-215 | a solution without processors throws ArgumentOutOfRangeException (`Next(0)` is 0 and index 0 is out of range); otherwise the result is a copy of the reference arrangement, every task of it newly allocated, with distinct tasks whose dependencies all lie outside it |
| AnnealingScheduler.NeighborEnergy | SchedulingProblemWyzarzanie/Program.cs:128-130 | a neighbour with non-negative durations is rated at its largest processor load |
| AnnealingScheduler.ShouldAcceptSolution | SchedulingProblemWyzarzanie/Program.cs:245-256 | an improvement (negative difference) is always accepted; any other move is accepted exactly when the random comparison says so |
| AnnealingScheduler.RateNeighbor | SchedulingProblemWyzarzanie/Program.cs:128-130 | the neighbour is the move applied to the current solution with that draw: a copy of its reference arrangement made of new tasks, all distinct, with dependencies outside it. It keeps the current shape, and `energy` is its end time |
| AnnealingScheduler.AnnealingStep | SchedulingProblemWyzarzanie/Program.cs:128-143 | one iteration, given a current energy that is the current solution's end time. The neighbour is the move applied to the current solution with that draw, rated `proposal`. The next current solution and energy are the neighbour and `proposal` exactly when the acceptance rule accepts the difference, and stay unchanged otherwise. The best solution and energy become the neighbour's exactly when it is accepted and rated below the best energy, and stay unchanged otherwise. The next current solution keeps the shape and is rated at the next energy |
| AnnealingScheduler.RunStep | SchedulingProblemWyzarzanie/Program.cs:124-146 | a recorded run of the loop extends by one iteration from its last current solution |
| AnnealingScheduler.Advance | SchedulingProblemWyzarzanie/Program.cs:133-143 | after one more iteration, the run extends by the next current solution and its energy, and the best index (moved to the new solution exactly when it was accepted and rated strictly below the best energy) points at the first current solution of the lowest energy |
| AnnealingScheduler.Iterate | SchedulingProblemWyzarzanie/Program.cs:126-145 | one pass of the loop keeps the loop's state: the run records one more iteration from the initial solution, the current solution is its last, and the best is the first of its current solutions of the lowest energy |
| AnnealingScheduler.RunStart | SchedulingProblemWyzarzanie/Program.cs:116-120 | a rated solution with at least one processor starts a run with no iterations |
| AnnealingScheduler.RunCurrent | SchedulingProblemWyzarzanie/Program.cs:124-146 | every current solution of a run keeps the initial shape and is rated at its recorded energy |
| AnnealingScheduler.RunAcceptance | SchedulingProblemWyzarzanie/Program.cs:131-137 | in a run, the energy after each iteration is the proposal when the acceptance rule takes it, and the energy before otherwise |
| AnnealingScheduler.ProposalIsLargestLoad | SchedulingProblemWyzarzanie/Program.cs:128-130 | with non-negative durations, every proposal of a run is the largest processor load of its neighbour |
| AnnealingScheduler.AnnealingResult | SchedulingProblemWyzarzanie/Program.cs:124-148 | after the loop, the energies follow the acceptance rule and the best solution is the first of the run's current solutions of the lowest energy (every earlier one is rated higher), with the initial shape and rated at that energy |
| AnnealingScheduler.AppendFirstMinimum | SchedulingProblemWyzarzanie/Program.cs:138-142 | after one more energy, the first lowest position moves to it exactly when it is strictly below the old minimum; a tie keeps the earlier position |
| AnnealingScheduler.AppendMin | SchedulingProblemWyzarzanie/Program.cs:138-142 | after one more energy, the best energy is the smaller of the old best and the new energy |
| AnnealingScheduler.SimulatedAnnealing | SchedulingProblemWyzarzanie/Program.cs:114-149 | throws InvalidOperationException exactly when the initial solution has no task. Otherwise the ghost run records max(iterations, 0) iterations from the initial solution. In each, the neighbour is the move applied to the current solution with that iteration's draw, rated by its end time, and accepted or rejected as the rule decides. The result is the first of the run's current solutions of the lowest energy (every earlier one is rated higher); it keeps the initial shape and is rated at that energy |
| GeneticScheduler.OnProcessor | GeneticAlgorithm/Program.cs:91-94 | one queue holds exactly the tasks whose processor is that queue's number (both directions) |
| GeneticScheduler.Decoded | GeneticAlgorithm/Program.cs:82-97 | `n` queues; queue `p` holds the list's tasks on processor `p` |
| GeneticScheduler.DecodedAppend | GeneticAlgorithm/Program.cs:93 | decoding one more task appends it to the queue of its processor |
| GeneticScheduler.DecodedPartition | GeneticAlgorithm/Program.cs:82-97 | with every processor in range, the queues hold exactly the list's tasks (as a multiset) and as many of them |
| GeneticScheduler.DecodeSolution | GeneticAlgorithm/Program.cs:82-97 | succeeds exactly when every processor indexes a queue, returning the decoded queues; otherwise the list indexer's ArgumentOutOfRangeException |
| GeneticScheduler.NoTasks | GeneticAlgorithm/Program.cs:104-106 | the remaining set starts empty exactly when the task list is empty |
| GeneticScheduler.DependencyMapEntries | GeneticAlgorithm/Program.cs:108 | the dependency view has one entry per task, holding that task's list |
| GeneticScheduler.PickTask | GeneticAlgorithm/Program.cs:108-129 | the picked task remains, and is ready, or any remaining task when none is ready |
| GeneticScheduler.PickStep | GeneticAlgorithm/Program.cs:117-129 | picking a task moves it from the remaining set to the end of the list and keeps: the list distinct; listed and remaining tasks complementary; each position pickable when picked |
| GeneticScheduler.DistinctCount | GeneticAlgorithm/Program.cs:104 | a list without duplicates has as many tasks as its set |
| GeneticScheduler.PickedNone | GeneticAlgorithm/Program.cs:103-104 | before the first pick every task remains and the list is empty |
| GeneticScheduler.PickedAll | GeneticAlgorithm/Program.cs:106-133 | when nothing remains, the list holds every task exactly once, each pickable when picked |
| GeneticScheduler.PlaceTask | GeneticAlgorithm/Program.cs:116-119 | the task gets a processor `Random.Next` can return, is appended, and leaves the remaining set |
| GeneticScheduler.GetRandomSolution | GeneticAlgorithm/Program.cs:100-134 | throws ArgumentOutOfRangeException exactly when the processor count is negative and there is a task. Otherwise: each task appears once; each has a processor `Random.Next` can return; each was ready when picked, unless none was |
| GeneticScheduler.LowestRank | GeneticAlgorithm/Program.cs:108 | a non-empty set of tasks has one of lowest rank |
| GeneticScheduler.DependenciesFirst | GeneticAlgorithm/Program.cs:106-131 | when dependencies are closed and acyclic, no pick falls back to a task that is not ready, so every task follows all its dependencies |
| GeneticScheduler.CalculateMakespan | GeneticAlgorithm/Program.cs:206-236 | throws InvalidOperationException exactly when no task is scheduled; otherwise returns the largest value of the genetic end-time dictionary |
| GeneticScheduler.MakespanIsEndTime | GeneticAlgorithm/Program.cs:206-236 | with non-negative durations the makespan equals the annealing rating of the same queues |
| GeneticScheduler.RecordingFacts | GeneticAlgorithm/Program.cs:235 | the dictionary is empty, and the annealing rating throws, exactly when no task is scheduled |
| GeneticScheduler.RecordSchedule | GeneticAlgorithm/Program.cs:208-233 | the processor loop builds the genetic end-time dictionary of the whole schedule |
| GeneticScheduler.RecordQueue | GeneticAlgorithm/Program.cs:212-232 | the task loop carries the processor time and builds one queue's end times |
| GeneticScheduler.RecordTask | GeneticAlgorithm/Program.cs:216-231 | one task is entered, its missing dependencies are entered, and it is stored at max(processor time, dependencies' end) + duration |
| GeneticScheduler.RecordDependencyEnds | GeneticAlgorithm/Program.cs:219-226 | the Max lambda enters each missing dependency with 0 and returns the largest end time read |
| GeneticScheduler.MaxValueUnique | GeneticAlgorithm/Program.cs:235 | a dictionary has a single largest value |
| GeneticScheduler.MaxValue | GeneticAlgorithm/Program.cs:235 | `Values.Max()` of a non-empty dictionary is a value of it that no value exceeds |
| GeneticScheduler.ProcessorCount | GeneticAlgorithm/Program.cs:73 | throws InvalidOperationException exactly for the empty list; otherwise every processor is below the count and one is just below it |
| GeneticScheduler.CountCoversProcessors | GeneticAlgorithm/Program.cs:73-75 | with `max(processor) + 1` queues, decoding stays in range exactly when no processor is negative |
| GeneticScheduler.CalculateFitness | GeneticAlgorithm/Program.cs:70-79 | the empty chromosome throws InvalidOperationException and a negative processor throws ArgumentOutOfRangeException (both exactly). Otherwise the makespan of the chromosome decoded with `max(processor) + 1` queues is returned |
| GeneticScheduler.TerminateAlgorithm | GeneticAlgorithm/Program.cs:136-153 | never stops before generation 50; from generation 50 on, stops exactly when the current population's best and second-best fitness differ by less than 0.001 |

## Left out

- Console input and output are not modelled: reading tasks and processor counts, `PrintSchedule`, the generation event handler and the `Main` methods.
- The wiring of the genetic-algorithm library is not modelled: population, crossover, mutation and elite operators, and gene objects. A chromosome is modelled as the task list its genes hold.
- `Wyzarzanie/SimulatedAnnealing.cs`, `Wyzarzanie/Program.cs`, `RzutyMoneta/Program.cs` and `GaussianProcess.py` are not part of this model.
- Randomness is not modelled as `System.Random`:
  - annealing draws are parameters (raw numbers reduced into range, or per-iteration functions);
  - the genetic random chromosome picks nondeterministically, so its contract holds for every choice;
  - no distribution is claimed.
- GetInitialSolution: the draws are finite, so a run can end with tasks still unassigned (`Unfinished`). With endless draws the C# loop would keep drawing, and it never ends when a dependency is not an input task.
- GetRandomSolution: `HashSet` enumeration order, and therefore which task `ElementAt` returns, is not modelled. The nondeterministic choice covers every order.
- ShouldAcceptSolution: the probabilistic branch, `NextDouble() < Exp(-difference / temperature)`, is a boolean input. The floating-point temperature is not modelled.
- SimulatedAnnealing: the temperature and its geometric cooling are not modelled, because they only feed that boolean. The unused `tasks` parameter is kept.
- CalculateFitness: returns the integer makespan rather than `1.0 / makespan`. The reciprocal is floating point, and a makespan of 0 gives infinity.
- TerminateAlgorithm: the comparison of the population's best fitness (`GetTop(1)[0]`) with its second-best (`GetTop(2)[1]`) against the 0.001 threshold is a boolean input, `topTwoWithinThreshold`, because fitness is floating point. Only the generation gate is modelled.
- Integers are unbounded. The C# `int` sums of durations would wrap around at 32 bits; that overflow is not modelled.
- Lists of queues are modelled as sequence values.
  - Updating a queue in place (`Add`, `Remove`, indexed assignment) becomes reassigning the sequence.
  - The shallow copies `new List<List<Task>>(...)` become plain value copies. This is sound here only because no queue list is changed after it is shared.
  - Sharing of a queue list between two solutions is not represented.
- Null references (a null task or dependency list) are not modelled. Every other exception the modelled code can raise is a `Threw` result rather than a propagated exception.
- Task `Name` is carried but never inspected, as in the code.
- Property setters that the modelled code does not use are left out: renaming a task, changing a duration, replacing the dependency list.
