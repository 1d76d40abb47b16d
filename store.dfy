/**
 * The application store: the project configuration, the task list, and the
 * outcome of the last successful balancing run (stations, assignment log,
 * results). `AssignAll` is the assignment algorithm: it fills stations one
 * task at a time, closes a station when nothing else fits, and gives up
 * after fifty consecutive rounds without an assignment.
 * `CalculateBalancing` runs it and publishes what a completed run produced.
 */
module Store {
  import opened Text
  import opened LineBalancing
  import opened BalancingRun

  /** The results record for a completed run. */
  function ResultsOf(totalTaskTime: real, cycleTime: real, actualStations: nat): (r: CalculatedResults)
    requires actualStations > 0 && cycleTime > 0.0
    ensures totalTaskTime <= actualStations as real * cycleTime ==>
      r.theoreticalStations <= r.actualStations && r.efficiency <= 100.0
    ensures r.efficiency == 100.0 <==> totalTaskTime == actualStations as real * cycleTime
  {
    var efficiency := Efficiency(totalTaskTime, actualStations, cycleTime);
    var r := CalculatedResults(totalTaskTime, cycleTime, TheoreticalStations(totalTaskTime, cycleTime),
      actualStations, efficiency, Classify(efficiency));
    if totalTaskTime <= actualStations as real * cycleTime then
      EfficiencyBounds(totalTaskTime, actualStations, cycleTime); r
    else r
  }

  /** An unproductive round that does not give up: the open station is
      pushed if it holds anything, and a fresh one opens with id
      `stations.length + 1` and the whole cycle time. */
  method CloseStation(
    tasks: seq<Task>, cycleTime: real, stations: seq<Station>, current: Station,
    assignedIds: set<int>, ghost order: seq<Task>, steps: seq<AssignmentStep>)
    returns (closed: seq<Station>, next: Station)
    requires RunInvariant(tasks, cycleTime, stations, current, assignedIds, order, steps)
    requires ClosedWhenFull(tasks, stations)
    requires |AvailableTasks(tasks, assignedIds, current.remainingTime)| == 0
    ensures closed == if |current.tasks| > 0 then stations + [current] else stations
    ensures next == Station(|closed| + 1, [], 0.0, cycleTime)
    ensures RunInvariant(tasks, cycleTime, closed, next, assignedIds, order, steps)
    ensures ClosedWhenFull(tasks, closed)
  {
    CloseKeepsInvariant(tasks, cycleTime, stations, current, assignedIds, order, steps);
    GreedyClose(tasks, stations, current, order);
    closed := stations;
    if |current.tasks| > 0 {
      closed := closed + [current];
    }
    next := Station(|closed| + 1, [], 0.0, cycleTime);
  }

  /** A productive round: the chain picks among the eligible tasks, using
      the next roll only for a tie both rules leave open, and the pick joins
      the open station and the log. */
  method PlaceChosen(
    tasks: seq<Task>, cycleTime: real, random: nat -> real, ghost stations: seq<Station>, current: Station,
    assignedIds: set<int>, ghost order: seq<Task>, steps: seq<AssignmentStep>, draws: nat, available: seq<Task>)
    returns (next: Station, assignedIds': set<int>, ghost order': seq<Task>, steps': seq<AssignmentStep>, draws': nat)
    requires RunInvariant(tasks, cycleTime, stations, current, assignedIds, order, steps)
    requires draws == Draws(steps) && GreedyChoices(tasks, random, order, steps)
    requires forall k :: 0.0 <= random(k) < 1.0
    requires available == AvailableTasks(tasks, assignedIds, current.remainingTime) && |available| > 0
    ensures next.id == current.id && |next.tasks| == |current.tasks| + 1
    ensures |assignedIds'| == |assignedIds| + 1
    ensures RunInvariant(tasks, cycleTime, stations, next, assignedIds', order', steps')
    ensures draws' == Draws(steps') && GreedyChoices(tasks, random, order', steps')
  {
    var selection := SelectTask(available, tasks, random(draws));
    var task := selection.task;
    assert ChosenNext(tasks, random, Ids(order), Draws(steps), current.remainingTime, task, selection.justification);
    PlaceKeepsInvariant(tasks, cycleTime, random, stations, current, assignedIds, order, steps, task, selection.justification);
    PlaceKeepsGreedy(tasks, random, current, order, steps, task, selection.justification);
    draws' := if selection.justification == RandomAfterTie then draws + 1 else draws;
    next := Station(current.id, current.tasks + [task], current.totalTime + task.time, current.remainingTime - task.time);
    assignedIds' := assignedIds + {task.id};
    order' := order + [task];
    steps' := steps + [AssignmentStep(current.id, task.id, task.name, task.time, current.remainingTime - task.time, selection.justification)];
  }

  /** The assignment loop of `calculateBalancing` (steps 4 and 5), on its
      own local state: fill the open station with eligible tasks chosen by
      the tie-break chain, close it when nothing else fits, and give up after
      fifty consecutive rounds without an assignment. `random(k)` is the k-th
      value `Math.random()` would return; one is used per tie that survives
      both rules. */
  method AssignAll(tasks: seq<Task>, cycleTime: real, random: nat -> real)
    returns (completed: bool, closed: seq<Station>, steps: seq<AssignmentStep>, problems: seq<TaskDiagnosis>)
    requires |tasks| > 0 && cycleTime > 0.0
    requires forall k :: 0.0 <= random(k) < 1.0
    // Completing: a balanced line, built greedily.
    ensures completed ==> problems == [] && GreedyBalanced(tasks, cycleTime, random, closed, steps)
    // Giving up: the stations closed so far are a valid greedy partial run,
    // nothing left fits even in an empty station, and the problems are the
    // diagnosis of the tasks still unplaced.
    // (StallExplained derives what such a stall report says.)
    ensures !completed ==> GreedyStall(tasks, cycleTime, random, closed, steps, problems)
  {
    closed := [];
    steps := [];
    var assignedIds: set<int> := {};
    var current := Station(1, [], 0.0, cycleTime);
    ghost var order: seq<Task> := [];
    var draws: nat := 0;
    var stall: nat := 0;
    InitialRun(tasks, cycleTime);

    while |assignedIds| < |tasks|
      invariant RunInvariant(tasks, cycleTime, closed, current, assignedIds, order, steps)
      invariant stall < MaxIterationsWithoutAssignment
      invariant stall > 0 ==> current.tasks == [] && current.remainingTime == cycleTime
      invariant draws == Draws(steps)
      invariant GreedyChoices(tasks, random, order, steps)
      invariant ClosedWhenFull(tasks, closed)
      decreases |tasks| - |assignedIds|, MaxIterationsWithoutAssignment - stall
    {
      var available := AvailableTasks(tasks, assignedIds, current.remainingTime);
      if |available| == 0 {
        stall := stall + 1;
        if stall >= MaxIterationsWithoutAssignment {
          // The open station is empty here, so nothing fits even at full capacity.
          StalledRun(tasks, cycleTime, closed, current, assignedIds, order, steps);
          return false, closed, steps, Diagnose(tasks, assignedIds, cycleTime);
        }
        closed, current := CloseStation(tasks, cycleTime, closed, current, assignedIds, order, steps);
      } else {
        stall := 0;
        current, assignedIds, order, steps, draws :=
          PlaceChosen(tasks, cycleTime, random, closed, current, assignedIds, order, steps, draws, available);
      }
    }

    CompletedRun(tasks, cycleTime, closed, current, assignedIds, order, steps);
    CompletedGreedy(tasks, random, cycleTime, closed, current, assignedIds, order, steps);
    if |current.tasks| > 0 {
      closed := closed + [current];
    }
    return true, closed, steps, [];
  }

  /** Steps 4 to 6 of `calculateBalancing` on local state: the assignment
      loop, then, when it completes, the results record. */
  method Balance(tasks: seq<Task>, cycleTime: real, random: nat -> real)
    returns (ok: bool, closed: seq<Station>, steps: seq<AssignmentStep>, results: Option<CalculatedResults>,
             problems: seq<TaskDiagnosis>)
    requires |tasks| > 0 && cycleTime > 0.0
    requires forall k :: 0.0 <= random(k) < 1.0
    ensures !ok ==> GreedyStall(tasks, cycleTime, random, closed, steps, problems)
    ensures forall d :: d in problems ==>
      d.task in tasks && (|d.invalidPrec| > 0 || |d.unmetPrec| > 0 || d.taskTooBig)
    ensures !ok && DistinctIds(tasks) ==> |problems| > 0
    ensures Schedulable(tasks, cycleTime) ==> ok
    ensures ok ==> problems == [] && GreedyBalanced(tasks, cycleTime, random, closed, steps)
    ensures !ok ==> results == None
    ensures ok ==> results == Some(ResultsOf(SumTimes(tasks), cycleTime, |closed|))
    ensures ok ==> results.value.theoreticalStations <= results.value.actualStations && results.value.efficiency <= 100.0
  {
    ok, closed, steps, problems := AssignAll(tasks, cycleTime, random);
    if !ok {
      StallExplained(tasks, cycleTime, random, closed, steps, problems);
      return ok, closed, steps, None, problems;
    }
    var totalTaskTime := SumTimes(tasks);
    EfficiencyBounds(totalTaskTime, |closed|, cycleTime);
    results := Some(ResultsOf(totalTaskTime, cycleTime, |closed|));
  }

  class LineBalancingStore {
    var projectConfig: Option<ProjectConfig>
    var tasks: seq<Task>
    var assignmentSteps: seq<AssignmentStep>
    var stations: seq<Station>
    var results: Option<CalculatedResults>

    /** The initial state: nothing configured, nothing calculated. */
    constructor ()
      ensures projectConfig == None && tasks == [] && assignmentSteps == [] && stations == [] && results == None
    {
      projectConfig := None;
      tasks := [];
      assignmentSteps := [];
      stations := [];
      results := None;
    }

    method SetProjectConfig(config: ProjectConfig)
      modifies this
      ensures projectConfig == Some(config)
      ensures tasks == old(tasks) && assignmentSteps == old(assignmentSteps)
      ensures stations == old(stations) && results == old(results)
    {
      projectConfig := Some(config);
    }

    method SetTasks(newTasks: seq<Task>)
      modifies this
      ensures tasks == newTasks
      ensures projectConfig == old(projectConfig) && assignmentSteps == old(assignmentSteps)
      ensures stations == old(stations) && results == old(results)
    {
      tasks := newTasks;
    }

    /** Back to the initial state, whatever was there before. */
    method Reset()
      modifies this
      ensures projectConfig == None && tasks == [] && assignmentSteps == [] && stations == [] && results == None
    {
      projectConfig := None;
      tasks := [];
      assignmentSteps := [];
      stations := [];
      results := None;
    }

    /** `calculateBalancing`: refuses without a configuration or tasks,
        otherwise runs the assignment algorithm and, when it completes,
        publishes its stations, log and results. `random(k)` is the k-th
        value `Math.random()` would return. On failure `problems` is what the
        alert lists. */
    method CalculateBalancing(random: nat -> real) returns (ok: bool, problems: seq<TaskDiagnosis>)
      requires forall k :: 0.0 <= random(k) < 1.0
      requires projectConfig.Some? ==> ValidConfig(projectConfig.value)
      modifies this
      ensures projectConfig == old(projectConfig) && tasks == old(tasks)
      // Nothing to balance: refused, nothing reported.
      ensures projectConfig.None? || |tasks| == 0 ==> !ok && problems == []
      // A refused or stalled run leaves the previous outcome in place.
      ensures !ok ==> stations == old(stations) && assignmentSteps == old(assignmentSteps) && results == old(results)
      // A stalled run names only tasks of the list, each with a reason it
      // cannot be placed even in an empty station.
      ensures forall d :: d in problems ==>
        d.task in tasks && (|d.invalidPrec| > 0 || |d.unmetPrec| > 0 || d.taskTooBig)
      ensures !ok && projectConfig.Some? && |tasks| > 0 && DistinctIds(tasks) ==> |problems| > 0
      // The lists the task form builds always balance.
      ensures projectConfig.Some? && |tasks| > 0 && Schedulable(tasks, CycleTime(projectConfig.value)) ==> ok
      // A stalled run: `problems` is the diagnosis left by a greedy run that
      // found nothing to place even in an empty station.
      ensures !ok && projectConfig.Some? && |tasks| > 0 ==>
        exists closed, steps :: GreedyStall(tasks, CycleTime(projectConfig.value), random, closed, steps, problems)
      // A completed run: every task placed exactly once, in precedence
      // order, each pick the tie-break chain's and each station closed only
      // when full, stations numbered from 1, none empty or overbooked, one
      // log record per placement, and the results computed from them.
      ensures ok ==> (
        && projectConfig.Some? && |tasks| > 0 && problems == []
        && GreedyBalanced(tasks, CycleTime(projectConfig.value), random, stations, assignmentSteps)
        && results == Some(ResultsOf(SumTimes(tasks), CycleTime(projectConfig.value), |stations|))
        && results.value.theoreticalStations <= results.value.actualStations
        && results.value.efficiency <= 100.0)
    {
      if projectConfig.None? || |tasks| == 0 {
        return false, [];
      }
      var closed, steps, calculated;
      ok, closed, steps, calculated, problems := Balance(tasks, CycleTime(projectConfig.value), random);
      if !ok {
        return;
      }
      stations := closed;
      assignmentSteps := steps;
      results := calculated;
    }
  }
}
