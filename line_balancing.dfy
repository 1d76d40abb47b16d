/**
 * The pure part of the line-balancing engine: the entities of the store,
 * cycle time and theoretical station count, the eligibility query, the
 * dependent count, the tie-break chain that picks one eligible task, the
 * infeasibility diagnosis and the efficiency classification.
 */
module LineBalancing {

  /** A production task; `precedences` are the ids of the tasks that must be
      assigned before it. Durations are exact reals (seconds). */
  datatype Task = Task(id: int, name: string, time: real, precedences: seq<int>)

  /** Throughput targets: minutes of production per day, units per day. */
  datatype ProjectConfig = ProjectConfig(
    projectName: string,
    productionTimePerDay: real,
    requiredProductionPerDay: real)

  datatype Station = Station(id: int, tasks: seq<Task>, totalTime: real, remainingTime: real)

  /** Which link of the tie-break chain decided a selection. */
  datatype Justification =
    | OnlyAvailable
    | MostFollowingTasks(following: nat)
    | LongestTime(time: real)
    | RandomAfterTie

  datatype AssignmentStep = AssignmentStep(
    stationId: int,
    taskId: int,
    taskName: string,
    taskTime: real,
    remainingTime: real,
    justification: Justification)

  datatype Classification = Insatisfactoria | Satisfactoria | Sobresaliente

  datatype CalculatedResults = CalculatedResults(
    totalTaskTime: real,
    cycleTime: real,
    theoreticalStations: int,
    actualStations: nat,
    efficiency: real,
    efficiencyClassification: Classification)

  /** What the engine reports about one task it could not assign. */
  datatype TaskDiagnosis = TaskDiagnosis(
    task: Task,
    invalidPrec: seq<int>,
    unmetPrec: seq<int>,
    taskTooBig: bool)

  datatype Selection = Selection(task: Task, justification: Justification)

  /** Consecutive unproductive iterations after which a run gives up. */
  const MaxIterationsWithoutAssignment: nat := 50

  /** The project form only accepts positive production time and demand. */
  predicate ValidConfig(c: ProjectConfig)
  {
    c.productionTimePerDay > 0.0 && c.requiredProductionPerDay > 0.0
  }

  // ---------------------------------------------------------------------
  // Generic helpers

  /** `s.filter(keep)`: the elements that satisfy `keep`, in their order. */
  function Filter<T(!new)>(s: seq<T>, keep: T -> bool): (r: seq<T>)
    ensures |r| <= |s|
    ensures forall x :: x in r <==> x in s && keep(x)
  {
    if |s| == 0 then []
    else Filter(s[..|s| - 1], keep) + (if keep(s[|s| - 1]) then [s[|s| - 1]] else [])
  }

  lemma {:induction false} FilterAppend<T(!new)>(a: seq<T>, b: seq<T>, keep: T -> bool)
    ensures Filter(a + b, keep) == Filter(a, keep) + Filter(b, keep)
    decreases |b|
  {
    if |b| == 0 {
      assert a + b == a;
    } else {
      assert (a + b)[..|a + b| - 1] == a + b[..|b| - 1];
      FilterAppend(a, b[..|b| - 1], keep);
    }
  }

  /** Filtering with a test every element passes changes nothing. */
  lemma {:induction false} FilterAll<T(!new)>(s: seq<T>, keep: T -> bool)
    requires forall x :: x in s ==> keep(x)
    ensures Filter(s, keep) == s
  {
    if |s| > 0 {
      FilterAll(s[..|s| - 1], keep);
    }
  }

  /** The ids of a list of tasks. */
  function Ids(tasks: seq<Task>): set<int>
  {
    set t | t in tasks :: t.id
  }

  /** Sum of the durations, accumulated left to right as `reduce` does. */
  function SumTimes(tasks: seq<Task>): real
  {
    if |tasks| == 0 then 0.0 else SumTimes(tasks[..|tasks| - 1]) + tasks[|tasks| - 1].time
  }

  /** `Math.ceil` on reals. */
  function Ceil(x: real): (n: int)
    ensures n as real - 1.0 < x <= n as real
  {
    -((-x).Floor)
  }

  // ---------------------------------------------------------------------
  // Cycle time and theoretical stations

  /** Seconds available per unit: `productionTimePerDay * 60 / requiredProductionPerDay`. */
  function CycleTime(c: ProjectConfig): (r: real)
    requires ValidConfig(c)
    ensures r > 0.0
    ensures r * c.requiredProductionPerDay == c.productionTimePerDay * 60.0
  {
    c.productionTimePerDay * 60.0 / c.requiredProductionPerDay
  }

  /** `Math.ceil(totalTaskTime / cycleTime)`: the fewest stations whose
      combined capacity covers the total work. */
  function TheoreticalStations(totalTaskTime: real, cycleTime: real): (n: int)
    requires cycleTime > 0.0
    ensures (n - 1) as real * cycleTime < totalTaskTime <= n as real * cycleTime
  {
    var q := totalTaskTime / cycleTime;
    var n := Ceil(q);
    assert q * cycleTime == totalTaskTime;
    MulMonotone(n as real - 1.0, q, cycleTime);
    MulMonotoneLe(q, n as real, cycleTime);
    n
  }

  lemma MulMonotone(a: real, b: real, c: real)
    requires a < b && c > 0.0
    ensures a * c < b * c
  {
  }

  lemma MulMonotoneLe(a: real, b: real, c: real)
    requires a <= b && c > 0.0
    ensures a * c <= b * c
  {
  }

  // ---------------------------------------------------------------------
  // Eligibility and dependent count

  /** Every precedence id of `t` is already assigned. */
  predicate PrecedencesMet(t: Task, assignedIds: set<int>)
  {
    forall p :: p in t.precedences ==> p in assignedIds
  }

  /** The three conditions of eligibility for the open station. */
  predicate IsAvailable(t: Task, assignedIds: set<int>, remainingTime: real)
  {
    t.id !in assignedIds && PrecedencesMet(t, assignedIds) && t.time <= remainingTime
  }

  /** `getAvailableTasks`: the eligible tasks, in task-list order. */
  function AvailableTasks(tasks: seq<Task>, assignedIds: set<int>, remainingTime: real): (r: seq<Task>)
    ensures |r| <= |tasks|
    ensures forall t :: t in r <==> t in tasks && IsAvailable(t, assignedIds, remainingTime)
  {
    Filter(tasks, t => IsAvailable(t, assignedIds, remainingTime))
  }

  /** `countFollowingTasks`: how many tasks list `id` among their precedences. */
  function CountFollowing(tasks: seq<Task>, id: int): (r: nat)
    ensures r <= |tasks|
    ensures r == 0 <==> forall i :: 0 <= i < |tasks| ==> id !in tasks[i].precedences
  {
    if |tasks| == 0 then 0
    else CountFollowing(tasks[..|tasks| - 1], id) + (if id in tasks[|tasks| - 1].precedences then 1 else 0)
  }

  /** The positions in `tasks` whose task lists `id` as a precedence. */
  function DependentPositions(tasks: seq<Task>, id: int): set<int>
  {
    set i | 0 <= i < |tasks| && id in tasks[i].precedences
  }

  lemma DependentPositionsSnoc(tasks: seq<Task>, id: int)
    requires |tasks| > 0
    ensures var k := |tasks| - 1;
      DependentPositions(tasks, id) ==
        DependentPositions(tasks[..k], id) + (if id in tasks[k].precedences then {k} else {})
  {
    var k := |tasks| - 1;
    forall i | 0 <= i < k ensures tasks[..k][i] == tasks[i] { }
  }

  lemma DependentPositionsBelow(tasks: seq<Task>, id: int)
    ensures |tasks| !in DependentPositions(tasks, id)
  {
  }

  /** The dependent count is the number of positions in the task list whose
      task lists `id` as a precedence. */
  lemma {:induction false} CountFollowingIsDependentCount(tasks: seq<Task>, id: int)
    ensures CountFollowing(tasks, id) == |DependentPositions(tasks, id)|
  {
    if |tasks| > 0 {
      var k := |tasks| - 1;
      CountFollowingIsDependentCount(tasks[..k], id);
      DependentPositionsSnoc(tasks, id);
      DependentPositionsBelow(tasks[..k], id);
    }
  }

  // ---------------------------------------------------------------------
  // Tie-break chain

  /** `Math.max` of the dependent counts of a non-empty candidate list. */
  function MaxFollowing(candidates: seq<Task>, tasks: seq<Task>): (m: nat)
    requires |candidates| > 0
    ensures exists t :: t in candidates && CountFollowing(tasks, t.id) == m
    ensures forall t :: t in candidates ==> CountFollowing(tasks, t.id) <= m
  {
    var last := candidates[|candidates| - 1];
    var c := CountFollowing(tasks, last.id);
    if |candidates| == 1 then c
    else
      var rest := candidates[..|candidates| - 1];
      assert candidates == rest + [last];
      var m := MaxFollowing(rest, tasks);
      if c > m then c else m
  }

  /** `Math.max` of the durations of a non-empty candidate list. */
  function MaxTime(candidates: seq<Task>): (m: real)
    requires |candidates| > 0
    ensures exists t :: t in candidates && t.time == m
    ensures forall t :: t in candidates ==> t.time <= m
  {
    var last := candidates[|candidates| - 1];
    if |candidates| == 1 then last.time
    else
      var rest := candidates[..|candidates| - 1];
      assert candidates == rest + [last];
      var m := MaxTime(rest);
      if last.time > m then last.time else m
  }

  /** Candidates left by the first rule: those with the most dependents. */
  function ByMostFollowing(available: seq<Task>, tasks: seq<Task>): (r: seq<Task>)
    requires |available| > 0
    ensures |r| > 0
    ensures forall t :: t in r <==>
      t in available && forall u :: u in available ==> CountFollowing(tasks, u.id) <= CountFollowing(tasks, t.id)
  {
    var m := MaxFollowing(available, tasks);
    Filter(available, (t: Task) => CountFollowing(tasks, t.id) == m)
  }

  /** Candidates left by the second rule: those with the longest duration. */
  function ByLongestTime(candidates: seq<Task>): (r: seq<Task>)
    requires |candidates| > 0
    ensures |r| > 0
    ensures forall t :: t in r <==> t in candidates && forall u :: u in candidates ==> u.time <= t.time
  {
    var m := MaxTime(candidates);
    Filter(candidates, (t: Task) => t.time == m)
  }

  /** `Math.floor(roll * n)` for a random roll in [0, 1). */
  function RandomIndex(roll: real, n: nat): (i: nat)
    requires 0.0 <= roll < 1.0 && n > 0
    ensures i < n
  {
    MulMonotoneLe(0.0, roll, n as real);
    MulMonotone(roll, 1.0, n as real);
    (roll * n as real).Floor
  }

  /** `selectTask`: one task out of a non-empty eligible list, by most
      dependents, then longest duration, then the random roll.
      SelectTaskJustified states what the pick and its justification mean. */
  function SelectTask(available: seq<Task>, tasks: seq<Task>, roll: real): (r: Selection)
    requires |available| > 0
    requires 0.0 <= roll < 1.0
    ensures r.task in available
  {
    if |available| == 1 then
      Selection(available[0], OnlyAvailable)
    else
      var byFollowing := ByMostFollowing(available, tasks);
      var byTime := ByLongestTime(byFollowing);
      if |byFollowing| == 1 then
        FollowingWinner(available, tasks, byFollowing[0]);
        Selection(byFollowing[0], MostFollowingTasks(MaxFollowing(available, tasks)))
      else if |byTime| == 1 then
        FollowingWinner(available, tasks, byTime[0]);
        Selection(byTime[0], LongestTime(MaxTime(byFollowing)))
      else
        var w := byTime[RandomIndex(roll, |byTime|)];
        FollowingWinner(available, tasks, w);
        Selection(w, RandomAfterTie)
  }

  /** The pick has the most dependents among the eligible tasks and, among
      those, the longest duration. The justification names the first rule
      that left a single candidate: only one eligible task, the first rule,
      the second rule, or a random roll among the candidates both rules left
      tied; the counts it reports are the winner's, and the candidates it
      beat fall strictly short. */
  lemma SelectTaskJustified(available: seq<Task>, tasks: seq<Task>, roll: real)
    requires |available| > 0
    requires 0.0 <= roll < 1.0
    ensures var r := SelectTask(available, tasks, roll);
      && r.task in available
      && (forall t :: t in available ==> CountFollowing(tasks, t.id) <= CountFollowing(tasks, r.task.id))
      && (forall t :: t in available && CountFollowing(tasks, t.id) == CountFollowing(tasks, r.task.id) ==>
            t.time <= r.task.time)
    ensures var r := SelectTask(available, tasks, roll);
      && (r.justification == OnlyAvailable <==> |available| == 1)
      && (r.justification.MostFollowingTasks? <==> |available| > 1 && |ByMostFollowing(available, tasks)| == 1)
      && (r.justification.LongestTime? <==>
            |available| > 1 && |ByMostFollowing(available, tasks)| > 1 && |TiedCandidates(available, tasks)| == 1)
      && (r.justification == RandomAfterTie <==>
            |available| > 1 && |ByMostFollowing(available, tasks)| > 1 && |TiedCandidates(available, tasks)| > 1)
    ensures var r := SelectTask(available, tasks, roll);
      r.justification.MostFollowingTasks? ==>
        r.justification.following == CountFollowing(tasks, r.task.id) &&
        forall t :: t in available && t != r.task ==> CountFollowing(tasks, t.id) < CountFollowing(tasks, r.task.id)
    ensures var r := SelectTask(available, tasks, roll);
      r.justification.LongestTime? ==>
        r.justification.time == r.task.time &&
        forall t :: t in available && t != r.task && CountFollowing(tasks, t.id) == CountFollowing(tasks, r.task.id) ==>
          t.time < r.task.time
    ensures var r := SelectTask(available, tasks, roll);
      r.justification == RandomAfterTie ==> r.task in TiedCandidates(available, tasks)
  {
    if |available| > 1 {
      var byFollowing := ByMostFollowing(available, tasks);
      var byTime := ByLongestTime(byFollowing);
      var w := SelectTask(available, tasks, roll).task;
      if |byFollowing| == 1 {
        assert w == byFollowing[0];
        FollowingWinner(available, tasks, w);
        SingleElement(byFollowing, w);
      } else {
        assert w in byTime;
        FollowingWinner(available, tasks, w);
        TimeWinner(byFollowing, w);
        if |byTime| == 1 {
          SingleElement(byTime, w);
        }
      }
    }
  }

  /** When a single task is eligible, it is the one picked. */
  lemma OnlyAvailableChosen(available: seq<Task>, tasks: seq<Task>, roll: real)
    requires |available| == 1
    requires 0.0 <= roll < 1.0
    ensures SelectTask(available, tasks, roll) == Selection(available[0], OnlyAvailable)
  {
  }

  /** A list of length one holds nothing but its element. */
  lemma SingleElement(s: seq<Task>, w: Task)
    requires |s| == 1 && w == s[0]
    ensures forall t :: t in s ==> t == w
  {
  }

  /** A winner of the first rule has the most dependents, and every task
      with as many dependents is a winner too. */
  lemma FollowingWinner(available: seq<Task>, tasks: seq<Task>, w: Task)
    requires |available| > 0
    requires w in ByMostFollowing(available, tasks)
    ensures w in available
    ensures forall t :: t in available ==> CountFollowing(tasks, t.id) <= CountFollowing(tasks, w.id)
    ensures forall t :: t in available && CountFollowing(tasks, t.id) == CountFollowing(tasks, w.id) ==>
      t in ByMostFollowing(available, tasks)
  {
  }

  /** A winner of the second rule has the longest duration, and every
      candidate as long is a winner too. */
  lemma TimeWinner(candidates: seq<Task>, w: Task)
    requires |candidates| > 0
    requires w in ByLongestTime(candidates)
    ensures w in candidates
    ensures forall t :: t in candidates ==> t.time <= w.time
    ensures forall t :: t in candidates && t.time == w.time ==> t in ByLongestTime(candidates)
  {
  }

  /** The candidates still tied after both rules; the random roll picks
      among exactly these. */
  function TiedCandidates(available: seq<Task>, tasks: seq<Task>): seq<Task>
    requires |available| > 0
  {
    ByLongestTime(ByMostFollowing(available, tasks))
  }

  /** The roll matters only for a tie that both rules leave unresolved; then
      every tied candidate is chosen by some roll, so the outcome is really
      random and not accidentally fixed. */
  lemma RandomTieReachesEveryCandidate(available: seq<Task>, tasks: seq<Task>, k: nat)
    requires |available| > 1
    requires |ByMostFollowing(available, tasks)| > 1
    requires |TiedCandidates(available, tasks)| > 1
    requires k < |TiedCandidates(available, tasks)|
    ensures var roll := k as real / |TiedCandidates(available, tasks)| as real;
      0.0 <= roll < 1.0 &&
      SelectTask(available, tasks, roll) == Selection(TiedCandidates(available, tasks)[k], RandomAfterTie)
  {
    var n := |TiedCandidates(available, tasks)|;
    RandomIndexOf(k, n);
  }

  /** Roll `k / n` lands on index `k`. */
  lemma RandomIndexOf(k: nat, n: nat)
    requires k < n
    ensures 0.0 <= k as real / n as real < 1.0
    ensures RandomIndex(k as real / n as real, n) == k
  {
    var roll := k as real / n as real;
    assert roll * n as real == k as real;
    if roll >= 1.0 {
      MulMonotoneLe(1.0, roll, n as real);
      assert false;
    }
  }

  /** When the rules decide (no random tie), the roll has no influence. */
  lemma SelectionIndependentOfRoll(available: seq<Task>, tasks: seq<Task>, roll1: real, roll2: real)
    requires |available| > 0
    requires 0.0 <= roll1 < 1.0 && 0.0 <= roll2 < 1.0
    requires SelectTask(available, tasks, roll1).justification != RandomAfterTie
    ensures SelectTask(available, tasks, roll1) == SelectTask(available, tasks, roll2)
  {
  }

  // ---------------------------------------------------------------------
  // Infeasibility diagnosis

  /** Precedence ids of `t` that name no task at all. */
  function InvalidPrecedences(tasks: seq<Task>, t: Task): (r: seq<int>)
    ensures forall p :: p in r <==> p in t.precedences && p !in Ids(tasks)
  {
    Filter(t.precedences, p => p !in Ids(tasks))
  }

  /** Precedence ids of `t` that name a task not yet assignedIds. */
  function UnmetPrecedences(tasks: seq<Task>, assignedIds: set<int>, t: Task): (r: seq<int>)
    ensures forall p :: p in r <==> p in t.precedences && p in Ids(tasks) && p !in assignedIds
  {
    Filter(t.precedences, p => p !in assignedIds && p in Ids(tasks))
  }

  function Diagnosis(tasks: seq<Task>, assignedIds: set<int>, cycleTime: real, t: Task): (r: TaskDiagnosis)
    ensures r.task == t
    ensures forall p :: p in r.invalidPrec <==> p in t.precedences && p !in Ids(tasks)
    ensures forall p :: p in r.unmetPrec <==> p in t.precedences && p in Ids(tasks) && p !in assignedIds
    ensures r.taskTooBig <==> t.time > cycleTime
  {
    TaskDiagnosis(t, InvalidPrecedences(tasks, t), UnmetPrecedences(tasks, assignedIds, t), t.time > cycleTime)
  }

  /** A diagnosis names no reason exactly when the task fits the cycle time
      and every one of its precedences is an existing, already placed task. */
  lemma DiagnosisClear(tasks: seq<Task>, assignedIds: set<int>, cycleTime: real, t: Task)
    ensures var d := Diagnosis(tasks, assignedIds, cycleTime, t);
      d.invalidPrec == [] && d.unmetPrec == [] && !d.taskTooBig <==>
      t.time <= cycleTime && forall p :: p in t.precedences ==> p in Ids(tasks) && p in assignedIds
  {
    var d := Diagnosis(tasks, assignedIds, cycleTime, t);
    assert d.taskTooBig <==> t.time > cycleTime;
    if d.invalidPrec != [] {
      assert d.invalidPrec[0] in t.precedences && d.invalidPrec[0] !in Ids(tasks);
    }
    if d.unmetPrec != [] {
      assert d.unmetPrec[0] in t.precedences && d.unmetPrec[0] !in assignedIds;
    }
    if d.invalidPrec == [] && d.unmetPrec == [] {
      forall p | p in t.precedences
        ensures p in Ids(tasks) && p in assignedIds
      {
        if p !in Ids(tasks) || p !in assignedIds {
          assert false;
        }
      }
    }
    assert (t.time <= cycleTime && forall p :: p in t.precedences ==> p in Ids(tasks) && p in assignedIds) ==> (d.invalidPrec == [] && d.unmetPrec == [] && !d.taskTooBig);
  }

  /** The tasks whose ids are not assigned yet, in task-list order. */
  function Unassigned(tasks: seq<Task>, assignedIds: set<int>): (r: seq<Task>)
    ensures forall t :: t in r <==> t in tasks && t.id !in assignedIds
  {
    Filter(tasks, (t: Task) => t.id !in assignedIds)
  }

  /** One diagnosis per unassigned task, in task-list order. */
  function Diagnose(tasks: seq<Task>, assignedIds: set<int>, cycleTime: real): (r: seq<TaskDiagnosis>)
    ensures |r| == |Unassigned(tasks, assignedIds)|
    ensures forall i :: 0 <= i < |r| ==> r[i].task == Unassigned(tasks, assignedIds)[i]
    ensures forall d :: d in r ==> d.task in tasks && d.task.id !in assignedIds && d == Diagnosis(tasks, assignedIds, cycleTime, d.task)
  {
    var u := Unassigned(tasks, assignedIds);
    seq(|u|, i requires 0 <= i < |u| => Diagnosis(tasks, assignedIds, cycleTime, u[i]))
  }

  /** A run stalls only when no unassigned task is eligible even in an empty
      station; then every reported task shows at least one of the three
      problems. */
  lemma StalledDiagnosisExplains(tasks: seq<Task>, assignedIds: set<int>, cycleTime: real)
    requires forall t :: t in tasks ==> !IsAvailable(t, assignedIds, cycleTime)
    ensures forall d :: d in Diagnose(tasks, assignedIds, cycleTime) ==>
      |d.invalidPrec| > 0 || |d.unmetPrec| > 0 || d.taskTooBig
  {
    forall d | d in Diagnose(tasks, assignedIds, cycleTime)
      ensures |d.invalidPrec| > 0 || |d.unmetPrec| > 0 || d.taskTooBig
    {
      var t := d.task;
      if !d.taskTooBig {
        assert !PrecedencesMet(t, assignedIds);
        var p :| p in t.precedences && p !in assignedIds;
        if p in Ids(tasks) {
          assert p in d.unmetPrec;
        } else {
          assert p in d.invalidPrec;
        }
      }
    }
  }

  // ---------------------------------------------------------------------
  // Efficiency

  /** `totalTaskTime / (actualStations * cycleTime) * 100`. */
  function Efficiency(totalTaskTime: real, actualStations: nat, cycleTime: real): (r: real)
    requires actualStations > 0 && cycleTime > 0.0
    ensures r <= 100.0 <==> totalTaskTime <= actualStations as real * cycleTime
    ensures r == 100.0 <==> totalTaskTime == actualStations as real * cycleTime
  {
    totalTaskTime / (actualStations as real * cycleTime) * 100.0
  }

  /** The three tiers: below 60, 60 to 90 inclusive, above 90. */
  function Classify(efficiency: real): (c: Classification)
    ensures c == Insatisfactoria <==> efficiency < 60.0
    ensures c == Satisfactoria <==> 60.0 <= efficiency <= 90.0
    ensures c == Sobresaliente <==> efficiency > 90.0
  {
    if efficiency < 60.0 then Insatisfactoria
    else if efficiency <= 90.0 then Satisfactoria
    else Sobresaliente
  }

  function Rank(c: Classification): nat
  {
    match c
    case Insatisfactoria => 0
    case Satisfactoria => 1
    case Sobresaliente => 2
  }

  /** A higher efficiency never earns a lower tier. */
  lemma ClassifyMonotone(e1: real, e2: real)
    requires e1 <= e2
    ensures Rank(Classify(e1)) <= Rank(Classify(e2))
  {
  }

  /** When the stations hold all the work without overflow, efficiency is at
      most 100%, and the theoretical count never exceeds the actual one. */
  lemma EfficiencyBounds(totalTaskTime: real, actualStations: nat, cycleTime: real)
    requires actualStations > 0 && cycleTime > 0.0
    requires totalTaskTime <= actualStations as real * cycleTime
    ensures Efficiency(totalTaskTime, actualStations, cycleTime) <= 100.0
    ensures totalTaskTime >= 0.0 ==> Efficiency(totalTaskTime, actualStations, cycleTime) >= 0.0
    ensures TheoreticalStations(totalTaskTime, cycleTime) <= actualStations
  {
    var cap := actualStations as real * cycleTime;
    var q := totalTaskTime / cap;
    assert q * cap == totalTaskTime;
    if q > 1.0 {
      MulMonotone(1.0, q, cap);
      assert false;
    }
    var n := TheoreticalStations(totalTaskTime, cycleTime);
    if n > actualStations {
      MulMonotoneLe(actualStations as real, (n - 1) as real, cycleTime);
      assert false;
    }
  }
}
