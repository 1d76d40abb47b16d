/**
 * The state of one balancing run and what stays true of it while the
 * assignment loop fills stations: station capacity, gap-free station ids,
 * the assignment log, the assignment order respecting precedences, and the
 * facts that turn a completed run into the published results.
 */
module BalancingRun {
  import opened LineBalancing

  /** A station's books balance: its total is the sum of its tasks' times,
      total plus remaining is the cycle time, and nothing is overbooked. */
  predicate StationFits(s: Station, cycleTime: real)
  {
    s.totalTime == SumTimes(s.tasks) &&
    s.totalTime + s.remainingTime == cycleTime &&
    s.remainingTime >= 0.0
  }

  /** The closed stations: numbered 1, 2, 3, ... without gaps, none empty,
      none over capacity. */
  predicate ClosedStations(stations: seq<Station>, cycleTime: real)
  {
    forall i :: 0 <= i < |stations| ==>
      stations[i].id == i + 1 && |stations[i].tasks| > 0 && StationFits(stations[i], cycleTime)
  }

  /** The tasks of all stations, station by station. */
  function Flatten(stations: seq<Station>): seq<Task>
  {
    if |stations| == 0 then []
    else Flatten(stations[..|stations| - 1]) + stations[|stations| - 1].tasks
  }

  /** Where a task went: its station and the station's remaining time right
      after the task was added. */
  datatype Placement = Placement(stationId: int, task: Task, remainingAfter: real)

  /** The placements of the tasks of one station, in order. */
  function StationPlacements(id: int, tasks: seq<Task>, cycleTime: real): (r: seq<Placement>)
    ensures |r| == |tasks|
  {
    if |tasks| == 0 then []
    else
      StationPlacements(id, tasks[..|tasks| - 1], cycleTime) +
      [Placement(id, tasks[|tasks| - 1], cycleTime - SumTimes(tasks))]
  }

  /** The k-th placement of a station: its k-th task, with the time left
      once the tasks up to it are in. */
  lemma {:induction false} StationPlacementsAt(id: int, tasks: seq<Task>, cycleTime: real, k: nat)
    requires k < |tasks|
    ensures StationPlacements(id, tasks, cycleTime)[k] == Placement(id, tasks[k], cycleTime - SumTimes(tasks[..k + 1]))
  {
    var n := |tasks| - 1;
    if k < n {
      StationPlacementsAt(id, tasks[..n], cycleTime, k);
      assert tasks[..n][..k + 1] == tasks[..k + 1];
    } else {
      assert tasks[..k + 1] == tasks;
    }
  }

  /** The placements of all stations, station by station. */
  function Placements(stations: seq<Station>, cycleTime: real): seq<Placement>
  {
    if |stations| == 0 then []
    else
      var s := stations[|stations| - 1];
      Placements(stations[..|stations| - 1], cycleTime) + StationPlacements(s.id, s.tasks, cycleTime)
  }

  /** A log record says what a placement says (the justification aside). */
  predicate Records(step: AssignmentStep, p: Placement)
  {
    step.stationId == p.stationId && step.taskId == p.task.id && step.taskName == p.task.name &&
    step.taskTime == p.task.time && step.remainingTime == p.remainingAfter
  }

  /** The log has exactly one record per placement, in the same order. */
  predicate LogMatches(steps: seq<AssignmentStep>, placements: seq<Placement>)
  {
    |steps| == |placements| && forall k :: 0 <= k < |steps| ==> Records(steps[k], placements[k])
  }

  predicate DistinctIds(tasks: seq<Task>)
  {
    forall i, j :: 0 <= i < j < |tasks| ==> tasks[i].id != tasks[j].id
  }

  /** Every precedence of the task at position k names a task at an earlier
      position. */
  predicate PrecedencesRespected(order: seq<Task>)
  {
    forall k :: 0 <= k < |order| ==> PrecedencesMet(order[k], Ids(order[..k]))
  }

  /** What the assignment loop keeps true between iterations. */
  ghost predicate RunInvariant(
    tasks: seq<Task>, cycleTime: real, stations: seq<Station>, current: Station,
    assignedIds: set<int>, order: seq<Task>, steps: seq<AssignmentStep>)
  {
    && cycleTime > 0.0
    && ClosedStations(stations, cycleTime)
    && current.id == |stations| + 1
    && StationFits(current, cycleTime)
    && Flatten(stations) + current.tasks == order
    && LogMatches(steps, Placements(stations, cycleTime) + StationPlacements(current.id, current.tasks, cycleTime))
    && assignedIds == Ids(order)
    && |assignedIds| == |order|
    && DistinctIds(order)
    && (forall t :: t in order ==> t in tasks)
    && PrecedencesRespected(order)
  }

  /** The state before the first iteration. */
  lemma InitialRun(tasks: seq<Task>, cycleTime: real)
    requires cycleTime > 0.0
    ensures RunInvariant(tasks, cycleTime, [], Station(1, [], 0.0, cycleTime), {}, [], [])
  {
  }

  lemma IdsAppend(order: seq<Task>, t: Task)
    ensures Ids(order + [t]) == Ids(order) + {t.id}
  {
  }

  lemma SumTimesSnoc(tasks: seq<Task>, t: Task)
    ensures SumTimes(tasks + [t]) == SumTimes(tasks) + t.time
  {
    assert (tasks + [t])[..|tasks|] == tasks;
  }

  /** Adding a task to a station that fits keeps it fitting, as long as the
      task fits in the remaining time. */
  lemma AssignFits(current: Station, t: Task, cycleTime: real)
    requires StationFits(current, cycleTime) && t.time <= current.remainingTime
    ensures StationFits(Station(current.id, current.tasks + [t], current.totalTime + t.time,
                                current.remainingTime - t.time), cycleTime)
  {
    SumTimesSnoc(current.tasks, t);
  }

  lemma AssignPlacements(stations: seq<Station>, current: Station, t: Task, cycleTime: real)
    ensures Placements(stations, cycleTime) + StationPlacements(current.id, current.tasks + [t], cycleTime) ==
      (Placements(stations, cycleTime) + StationPlacements(current.id, current.tasks, cycleTime)) +
      [Placement(current.id, t, cycleTime - SumTimes(current.tasks + [t]))]
  {
    assert (current.tasks + [t])[..|current.tasks|] == current.tasks;
  }

  lemma AssignLog(steps: seq<AssignmentStep>, placements: seq<Placement>, step: AssignmentStep, p: Placement)
    requires LogMatches(steps, placements) && Records(step, p)
    ensures LogMatches(steps + [step], placements + [p])
  {
  }

  lemma AssignDistinct(order: seq<Task>, t: Task)
    requires DistinctIds(order) && t.id !in Ids(order)
    ensures DistinctIds(order + [t])
  {
    var order' := order + [t];
    forall i, j | 0 <= i < j < |order'|
      ensures order'[i].id != order'[j].id
    {
      if j == |order| {
        assert order[i] in order;
      }
    }
  }

  lemma AssignPrecedences(order: seq<Task>, t: Task)
    requires PrecedencesRespected(order) && PrecedencesMet(t, Ids(order))
    ensures PrecedencesRespected(order + [t])
  {
    var order' := order + [t];
    forall k | 0 <= k < |order'|
      ensures PrecedencesMet(order'[k], Ids(order'[..k]))
    {
      if k < |order| {
        assert order'[..k] == order[..k];
      } else {
        assert order'[..k] == order;
      }
    }
  }

  /** The open station's side of the invariant after adding a task that
      fits: its books, the order it contributes, and the log. */
  lemma AssignStation(
    cycleTime: real, stations: seq<Station>, current: Station, order: seq<Task>,
    steps: seq<AssignmentStep>, t: Task, justification: Justification)
    requires StationFits(current, cycleTime) && t.time <= current.remainingTime
    requires Flatten(stations) + current.tasks == order
    requires LogMatches(steps, Placements(stations, cycleTime) + StationPlacements(current.id, current.tasks, cycleTime))
    ensures var next := Station(current.id, current.tasks + [t], current.totalTime + t.time, current.remainingTime - t.time);
      && StationFits(next, cycleTime)
      && Flatten(stations) + next.tasks == order + [t]
      && LogMatches(steps + [AssignmentStep(current.id, t.id, t.name, t.time, current.remainingTime - t.time, justification)],
                    Placements(stations, cycleTime) + StationPlacements(next.id, next.tasks, cycleTime))
  {
    var next := Station(current.id, current.tasks + [t], current.totalTime + t.time, current.remainingTime - t.time);
    var step := AssignmentStep(current.id, t.id, t.name, t.time, current.remainingTime - t.time, justification);
    AssignFits(current, t, cycleTime);
    var p := Placement(current.id, t, cycleTime - SumTimes(next.tasks));
    AssignPlacements(stations, current, t, cycleTime);
    AssignLog(steps, Placements(stations, cycleTime) + StationPlacements(current.id, current.tasks, cycleTime), step, p);
  }

  /** The order's side of the invariant after appending an eligible task. */
  lemma AssignOrder(tasks: seq<Task>, assignedIds: set<int>, order: seq<Task>, t: Task)
    requires assignedIds == Ids(order) && |assignedIds| == |order|
    requires DistinctIds(order) && (forall u :: u in order ==> u in tasks) && PrecedencesRespected(order)
    requires t in tasks && t.id !in assignedIds && PrecedencesMet(t, assignedIds)
    ensures assignedIds + {t.id} == Ids(order + [t]) && |assignedIds + {t.id}| == |order + [t]|
    ensures DistinctIds(order + [t]) && (forall u :: u in order + [t] ==> u in tasks)
    ensures PrecedencesRespected(order + [t])
  {
    IdsAppend(order, t);
    AssignDistinct(order, t);
    AssignPrecedences(order, t);
  }

  /** Assigning an eligible task to the open station keeps the invariant. */
  lemma AssignKeepsInvariant(
    tasks: seq<Task>, cycleTime: real, stations: seq<Station>, current: Station,
    assignedIds: set<int>, order: seq<Task>, steps: seq<AssignmentStep>,
    t: Task, justification: Justification)
    requires RunInvariant(tasks, cycleTime, stations, current, assignedIds, order, steps)
    requires t in tasks && IsAvailable(t, assignedIds, current.remainingTime)
    ensures var next := Station(current.id, current.tasks + [t], current.totalTime + t.time, current.remainingTime - t.time);
      RunInvariant(tasks, cycleTime, stations, next, assignedIds + {t.id}, order + [t],
        steps + [AssignmentStep(current.id, t.id, t.name, t.time, current.remainingTime - t.time, justification)])
  {
    AssignStation(cycleTime, stations, current, order, steps, t, justification);
    AssignOrder(tasks, assignedIds, order, t);
  }

  /** Closing the open station (pushed only when non-empty) and opening the
      next one, with id `stations.length + 1` and full capacity, keeps the
      invariant. */
  lemma FlattenSnoc(stations: seq<Station>, s: Station)
    ensures Flatten(stations + [s]) == Flatten(stations) + s.tasks
  {
    assert (stations + [s])[..|stations|] == stations;
  }

  lemma PlacementsSnoc(stations: seq<Station>, s: Station, cycleTime: real)
    ensures Placements(stations + [s], cycleTime) == Placements(stations, cycleTime) + StationPlacements(s.id, s.tasks, cycleTime)
  {
    assert (stations + [s])[..|stations|] == stations;
  }

  /** Closing the open station (pushed only when non-empty) and opening the
      next one, with id `stations.length + 1` and full capacity, keeps the
      invariant. */
  lemma CloseKeepsInvariant(
    tasks: seq<Task>, cycleTime: real, stations: seq<Station>, current: Station,
    assignedIds: set<int>, order: seq<Task>, steps: seq<AssignmentStep>)
    requires RunInvariant(tasks, cycleTime, stations, current, assignedIds, order, steps)
    ensures var closed := if |current.tasks| > 0 then stations + [current] else stations;
      RunInvariant(tasks, cycleTime, closed, Station(|closed| + 1, [], 0.0, cycleTime), assignedIds, order, steps)
  {
    var closed := if |current.tasks| > 0 then stations + [current] else stations;
    if |current.tasks| > 0 {
      FlattenSnoc(stations, current);
      PlacementsSnoc(stations, current, cycleTime);
      assert ClosedStations(closed, cycleTime) by {
        forall i | 0 <= i < |closed|
          ensures closed[i].id == i + 1 && |closed[i].tasks| > 0 && StationFits(closed[i], cycleTime)
        {
          if i < |stations| {
            assert closed[i] == stations[i];
          }
        }
      }
    }
    assert Flatten(closed) + [] == Flatten(closed);
    assert Placements(closed, cycleTime) + [] == Placements(closed, cycleTime);
  }

  /** When the loop ends the open station, if non-empty, is pushed; the
      closed stations then hold exactly the assignment order and the log
      matches their placements. */
  lemma FinishRun(
    tasks: seq<Task>, cycleTime: real, stations: seq<Station>, current: Station,
    assignedIds: set<int>, order: seq<Task>, steps: seq<AssignmentStep>)
    requires RunInvariant(tasks, cycleTime, stations, current, assignedIds, order, steps)
    ensures var closed := if |current.tasks| > 0 then stations + [current] else stations;
      ClosedStations(closed, cycleTime) && Flatten(closed) == order &&
      LogMatches(steps, Placements(closed, cycleTime))
  {
    var closed := if |current.tasks| > 0 then stations + [current] else stations;
    CloseKeepsInvariant(tasks, cycleTime, stations, current, assignedIds, order, steps);
    assert Flatten(closed) + [] == order;
    assert Placements(closed, cycleTime) + StationPlacements(|closed| + 1, [], cycleTime) == Placements(closed, cycleTime);
  }

  // ---------------------------------------------------------------------
  // Completed runs: permutation and totals

  lemma {:induction false} SumTimesAppend(a: seq<Task>, b: seq<Task>)
    ensures SumTimes(a + b) == SumTimes(a) + SumTimes(b)
    decreases |b|
  {
    if |b| > 0 {
      var b' := b[..|b| - 1];
      assert (a + b)[..|a + b| - 1] == a + b';
      SumTimesAppend(a, b');
    } else {
      assert a + b == a;
    }
  }

  lemma MultisetRemove(b: seq<Task>, i: nat)
    requires i < |b|
    ensures multiset(b) == multiset(b[..i] + b[i + 1..]) + multiset([b[i]])
  {
    assert b == b[..i] + [b[i]] + b[i + 1..];
  }

  lemma SumTimesRemove(b: seq<Task>, i: nat)
    requires i < |b|
    ensures SumTimes(b) == SumTimes(b[..i] + b[i + 1..]) + b[i].time
  {
    var pre, post := b[..i], b[i + 1..];
    assert b[..i + 1][..i] == pre;
    assert SumTimes(b[..i + 1]) == SumTimes(pre) + b[i].time;
    assert b == b[..i + 1] + post;
    SumTimesAppend(b[..i + 1], post);
    SumTimesAppend(pre, post);
  }

  lemma MultisetCancel(m: multiset<Task>, n: multiset<Task>, x: Task)
    requires m + multiset([x]) == n + multiset([x])
    ensures m == n
  {
    forall y ensures m[y] == n[y] {
      assert (m + multiset([x]))[y] == (n + multiset([x]))[y];
    }
  }

  /** Reordering tasks does not change their total time. */
  lemma {:induction false} SumTimesPermutation(a: seq<Task>, b: seq<Task>)
    requires multiset(a) == multiset(b)
    ensures SumTimes(a) == SumTimes(b)
    decreases |a|
  {
    if |a| > 0 {
      var x := a[|a| - 1];
      var a' := a[..|a| - 1];
      assert a == a' + [x];
      assert x in multiset(b);
      var i :| 0 <= i < |b| && b[i] == x;
      var b' := b[..i] + b[i + 1..];
      MultisetRemove(b, i);
      MultisetCancel(multiset(a'), multiset(b'), x);
      SumTimesPermutation(a', b');
      SumTimesRemove(b, i);
    } else {
      assert |b| == 0;
    }
  }

  /** The work held by non-overbooked stations fits in their combined capacity. */
  lemma {:induction false} FlattenWithinCapacity(stations: seq<Station>, cycleTime: real)
    requires ClosedStations(stations, cycleTime)
    ensures SumTimes(Flatten(stations)) <= |stations| as real * cycleTime
  {
    if |stations| > 0 {
      var rest := stations[..|stations| - 1];
      var last := stations[|stations| - 1];
      assert ClosedStations(rest, cycleTime) by {
        forall i | 0 <= i < |rest| ensures rest[i] == stations[i] { }
      }
      FlattenWithinCapacity(rest, cycleTime);
      assert Flatten(stations) == Flatten(rest) + last.tasks;
      SumTimesAppend(Flatten(rest), last.tasks);
      assert StationFits(last, cycleTime);
      assert SumTimes(last.tasks) <= cycleTime;
      assert |stations| as real * cycleTime == |rest| as real * cycleTime + cycleTime;
    }
  }

  predicate Distinct<T(==)>(s: seq<T>)
  {
    forall i, j :: 0 <= i < j < |s| ==> s[i] != s[j]
  }

  function Elements<T>(s: seq<T>): set<T>
  {
    set x | x in s
  }

  lemma {:induction false} ElementsCard<T>(s: seq<T>)
    ensures |Elements(s)| <= |s|
    ensures Distinct(s) <==> |Elements(s)| == |s|
  {
    if |s| > 0 {
      var s' := s[..|s| - 1];
      var x := s[|s| - 1];
      ElementsCard(s');
      assert Elements(s) == Elements(s') + {x};
      if x in s' {
        var i :| 0 <= i < |s'| && s'[i] == x;
        assert s[i] == s[|s| - 1];
      } else {
        assert Distinct(s) <==> Distinct(s');
      }
    }
  }

  lemma {:induction false} DistinctMultiplicity<T>(s: seq<T>, x: T)
    requires Distinct(s)
    ensures multiset(s)[x] == if x in s then 1 else 0
  {
    if |s| > 0 {
      var s' := s[..|s| - 1];
      var y := s[|s| - 1];
      assert s == s' + [y];
      assert Distinct(s');
      DistinctMultiplicity(s', x);
      assert y !in s';
      assert multiset(s)[x] == multiset(s')[x] + multiset([y])[x];
    }
  }

  lemma SubsetCard<T>(a: set<T>, b: set<T>)
    requires a <= b
    ensures |a| <= |b|
  {
    assert b == a + (b - a);
    assert a * (b - a) == {};
  }

  lemma SubsetSameCard<T>(a: set<T>, b: set<T>)
    requires a <= b && |a| == |b|
    ensures a == b
  {
    if a != b {
      var x :| x in b && x !in a;
      SubsetCard(a, b - {x});
    }
  }

  /** A completed run: the order holds as many tasks as the list, with
      distinct ids, all from the list. Then it is a permutation of the list,
      and the list itself has distinct ids. */
  lemma CompletedOrderIsPermutation(tasks: seq<Task>, order: seq<Task>)
    requires |order| == |tasks|
    requires DistinctIds(order)
    requires forall t :: t in order ==> t in tasks
    ensures multiset(order) == multiset(tasks)
    ensures DistinctIds(tasks)
  {
    assert Distinct(order);
    ElementsCard(order);
    ElementsCard(tasks);
    assert Elements(order) <= Elements(tasks);
    SubsetCard(Elements(order), Elements(tasks));
    SubsetSameCard(Elements(order), Elements(tasks));
    forall x ensures multiset(order)[x] == multiset(tasks)[x] {
      DistinctMultiplicity(order, x);
      DistinctMultiplicity(tasks, x);
      assert x in order <==> x in Elements(order);
      assert x in tasks <==> x in Elements(tasks);
    }
    forall i, j | 0 <= i < j < |tasks| ensures tasks[i].id != tasks[j].id {
      assert tasks[i] in Elements(order) && tasks[j] in Elements(order);
      var p :| 0 <= p < |order| && order[p] == tasks[i];
      var q :| 0 <= q < |order| && order[q] == tasks[j];
      if p > q {
        assert order[q].id != order[p].id;
      }
    }
  }

  /** The assignment order never holds more tasks than the list. */
  lemma OrderWithinTasks(tasks: seq<Task>, order: seq<Task>)
    requires DistinctIds(order)
    requires forall t :: t in order ==> t in tasks
    ensures |order| <= |tasks|
  {
    assert Distinct(order);
    ElementsCard(order);
    ElementsCard(tasks);
    SubsetCard(Elements(order), Elements(tasks));
  }

  /** What a completed run publishes: the stations hold every task exactly
      once, in an order that respects precedences; they are numbered from 1,
      none is empty or overbooked; the log has one record per placement; and
      the work fits in the stations' combined capacity. */
  ghost predicate Balanced(tasks: seq<Task>, cycleTime: real, stations: seq<Station>, steps: seq<AssignmentStep>)
  {
    && multiset(Flatten(stations)) == multiset(tasks)
    && DistinctIds(tasks)
    && PrecedencesRespected(Flatten(stations))
    && ClosedStations(stations, cycleTime)
    && |stations| > 0
    && LogMatches(steps, Placements(stations, cycleTime))
    && SumTimes(tasks) <= |stations| as real * cycleTime
  }

  /** An order holding every task once, respecting precedences, spread over
      closed stations whose placements the log matches, is a balanced line. */
  lemma CompletedOrder(tasks: seq<Task>, cycleTime: real, closed: seq<Station>, order: seq<Task>,
                       steps: seq<AssignmentStep>)
    requires ClosedStations(closed, cycleTime) && Flatten(closed) == order && |closed| > 0
    requires LogMatches(steps, Placements(closed, cycleTime))
    requires |order| == |tasks| && DistinctIds(order) && PrecedencesRespected(order)
    requires forall t :: t in order ==> t in tasks
    ensures Balanced(tasks, cycleTime, closed, steps)
  {
    CompletedOrderIsPermutation(tasks, order);
    SumTimesPermutation(order, tasks);
    FlattenWithinCapacity(closed, cycleTime);
  }

  /** The loop ended with every task assigned: pushing the open station (if
      non-empty) gives a balanced line. */
  lemma CompletedRun(
    tasks: seq<Task>, cycleTime: real, stations: seq<Station>, current: Station,
    assignedIds: set<int>, order: seq<Task>, steps: seq<AssignmentStep>)
    requires RunInvariant(tasks, cycleTime, stations, current, assignedIds, order, steps)
    requires |assignedIds| >= |tasks| > 0
    ensures Balanced(tasks, cycleTime, if |current.tasks| > 0 then stations + [current] else stations, steps)
  {
    var closed := if |current.tasks| > 0 then stations + [current] else stations;
    FinishRun(tasks, cycleTime, stations, current, assignedIds, order, steps);
    OrderWithinTasks(tasks, order);
    CompletedOrder(tasks, cycleTime, closed, order, steps);
  }

  // ---------------------------------------------------------------------
  // Stalled runs

  /** With distinct ids, a run that stops short of assigning every task
      leaves some task unassigned, so its diagnosis is not empty. */
  lemma StallLeavesUnassigned(tasks: seq<Task>, assignedIds: set<int>, cycleTime: real)
    requires DistinctIds(tasks)
    requires |assignedIds| < |tasks|
    ensures |Diagnose(tasks, assignedIds, cycleTime)| > 0
  {
    IdsCard(tasks);
    if Ids(tasks) <= assignedIds {
      SubsetCard(Ids(tasks), assignedIds);
      assert false;
    }
    var x :| x in Ids(tasks) && x !in assignedIds;
    var t :| t in tasks && t.id == x;
    assert t in Unassigned(tasks, assignedIds);
  }

  /** A run that gave up: the open station is empty and nothing fits in it.
      The closed stations are the run so far, it is stuck, every task of
      the diagnosis is unplaceable for a stated reason, the diagnosis is not
      empty when ids are distinct, and the list was not schedulable. */
  lemma StalledRun(
    tasks: seq<Task>, cycleTime: real, stations: seq<Station>, current: Station,
    assignedIds: set<int>, order: seq<Task>, steps: seq<AssignmentStep>)
    requires RunInvariant(tasks, cycleTime, stations, current, assignedIds, order, steps)
    requires |assignedIds| < |tasks|
    requires current.tasks == [] && current.remainingTime == cycleTime
    requires |AvailableTasks(tasks, assignedIds, current.remainingTime)| == 0
    ensures Flatten(stations) == order && PartialRun(tasks, cycleTime, stations, steps)
    ensures Stuck(tasks, cycleTime, assignedIds)
    ensures forall d :: d in Diagnose(tasks, assignedIds, cycleTime) ==>
      d.task in tasks && (|d.invalidPrec| > 0 || |d.unmetPrec| > 0 || d.taskTooBig)
    ensures DistinctIds(tasks) ==> |Diagnose(tasks, assignedIds, cycleTime)| > 0
    ensures !Schedulable(tasks, cycleTime)
  {
    assert Flatten(stations) + [] == order;
    assert Placements(stations, cycleTime) + StationPlacements(current.id, [], cycleTime) == Placements(stations, cycleTime);
    StalledDiagnosisExplains(tasks, assignedIds, cycleTime);
    if DistinctIds(tasks) {
      StallLeavesUnassigned(tasks, assignedIds, cycleTime);
    }
    if Schedulable(tasks, cycleTime) {
      NeverStalls(tasks, assignedIds, cycleTime);
      assert false;
    }
  }

  /** In a completed run every precedence names a task of the list: the
      task holding it only became eligible once that id was placed. */
  lemma BalancedReferencesResolve(tasks: seq<Task>, cycleTime: real, stations: seq<Station>,
                                  steps: seq<AssignmentStep>)
    requires Balanced(tasks, cycleTime, stations, steps)
    ensures forall t, p :: t in tasks && p in t.precedences ==> p in Ids(tasks)
  {
    var order := Flatten(stations);
    forall t, p | t in tasks && p in t.precedences
      ensures p in Ids(tasks)
    {
      assert t in multiset(order);
      var k :| 0 <= k < |order| && order[k] == t;
      assert PrecedencesMet(order[k], Ids(order[..k]));
      var u :| u in order[..k] && u.id == p;
      assert u in multiset(order);
      assert u in tasks;
    }
  }

  /** Hence a list in which some precedence names no task of the list has
      no completed run. */
  lemma UnresolvableNeverBalances(tasks: seq<Task>, cycleTime: real, stations: seq<Station>,
                                  steps: seq<AssignmentStep>, t: Task, p: int)
    requires t in tasks && p in t.precedences && p !in Ids(tasks)
    ensures !Balanced(tasks, cycleTime, stations, steps)
  {
    if Balanced(tasks, cycleTime, stations, steps) {
      BalancedReferencesResolve(tasks, cycleTime, stations, steps);
      assert false;
    }
  }

  /** Nor has a list holding a task longer than the cycle, when no task
      takes negative time: no station could hold it. */
  lemma OversizedNeverBalances(tasks: seq<Task>, cycleTime: real, stations: seq<Station>,
                               steps: seq<AssignmentStep>, t: Task)
    requires forall u :: u in tasks ==> u.time >= 0.0
    requires t in tasks && t.time > cycleTime
    ensures !Balanced(tasks, cycleTime, stations, steps)
  {
    if Balanced(tasks, cycleTime, stations, steps) {
      assert t in multiset(Flatten(stations));
      FlattenMember(stations, t);
      var i :| 0 <= i < |stations| && t in stations[i].tasks;
      assert StationFits(stations[i], cycleTime);
      forall v | v in stations[i].tasks ensures v.time >= 0.0 {
        FlattenHolds(stations, i, v);
        assert v in multiset(tasks);
      }
      TimeWithinSum(stations[i].tasks, t);
      assert false;
    }
  }

  // ---------------------------------------------------------------------
  // The greedy choice

  /** How many random rolls the log has used: one per tie that both rules
      left open. */
  function Draws(steps: seq<AssignmentStep>): (n: nat)
    ensures n <= |steps|
  {
    if |steps| == 0 then 0
    else Draws(steps[..|steps| - 1]) + (if steps[|steps| - 1].justification == RandomAfterTie then 1 else 0)
  }

  /** Placing `t` with this justification, when the tasks with ids `placed`
      are placed, `draws` rolls are used and the open station has
      `remaining` left, is the tie-break chain's pick with the next unused
      roll among the eligible tasks. */
  predicate ChosenNext(tasks: seq<Task>, random: nat -> real, placed: set<int>, draws: nat,
                       remaining: real, t: Task, justification: Justification)
  {
    var eligible := AvailableTasks(tasks, placed, remaining);
    |eligible| > 0 && 0.0 <= random(draws) < 1.0 && SelectTask(eligible, tasks, random(draws)) == Selection(t, justification)
  }

  /** Every placement of the order, and its logged justification, was the
      chain's pick at that point: the last one given the placements and the
      log before it, with the open station holding its logged remaining time
      plus the task's time, and the ones before it likewise. */
  predicate GreedyChoices(tasks: seq<Task>, random: nat -> real, order: seq<Task>, steps: seq<AssignmentStep>)
    decreases |order|
  {
    |steps| == |order| &&
    (|order| == 0 ||
      var n := |order| - 1;
      GreedyChoices(tasks, random, order[..n], steps[..n]) &&
      ChosenNext(tasks, random, Ids(order[..n]), Draws(steps[..n]), steps[n].remainingTime + order[n].time, order[n], steps[n].justification))
  }

  /** A station was closed only once no task fitted in what it had left. */
  predicate ClosedWhenFull(tasks: seq<Task>, stations: seq<Station>)
  {
    forall k :: 0 <= k < |stations| ==>
      forall t :: t in tasks ==> !IsAvailable(t, Ids(Flatten(stations[..k + 1])), stations[k].remainingTime)
  }

  /** The stations and the log are what the greedy heuristic builds: each
      task picked by the chain and each station filled until nothing fits. */
  predicate Greedy(tasks: seq<Task>, random: nat -> real, stations: seq<Station>, steps: seq<AssignmentStep>)
  {
    GreedyChoices(tasks, random, Flatten(stations), steps) && ClosedWhenFull(tasks, stations)
  }

  /** A roll is used exactly for a pick that was random. */
  lemma DrawsSnoc(steps: seq<AssignmentStep>, step: AssignmentStep)
    ensures Draws(steps + [step]) == Draws(steps) + (if step.justification == RandomAfterTie then 1 else 0)
  {
    assert (steps + [step])[..|steps|] == steps;
  }

  /** Placing the chain's pick keeps every placement a greedy one. */
  lemma GreedyAssign(
    tasks: seq<Task>, random: nat -> real, order: seq<Task>, steps: seq<AssignmentStep>,
    remaining: real, t: Task, step: AssignmentStep)
    requires GreedyChoices(tasks, random, order, steps)
    requires step.remainingTime + t.time == remaining
    requires ChosenNext(tasks, random, Ids(order), Draws(steps), remaining, t, step.justification)
    ensures GreedyChoices(tasks, random, order + [t], steps + [step])
  {
    GreedyPrefixKept(tasks, random, order, steps, t, step);
    ChosenLast(tasks, random, order, steps, remaining, t, step);
  }

  /** The history before the last placement of `order + [t]` is `order`'s. */
  lemma SnocPrefixes(order: seq<Task>, steps: seq<AssignmentStep>, t: Task, step: AssignmentStep)
    requires |steps| == |order|
    ensures var n := |order|;
      && (order + [t])[..n] == order && (steps + [step])[..n] == steps
      && Ids((order + [t])[..n]) == Ids(order) && Draws((steps + [step])[..n]) == Draws(steps)
      && (order + [t])[n] == t && (steps + [step])[n] == step
  {
    assert (order + [t])[..|order|] == order;
    assert (steps + [step])[..|order|] == steps;
  }

  lemma GreedyPrefixKept(tasks: seq<Task>, random: nat -> real, order: seq<Task>, steps: seq<AssignmentStep>,
                         t: Task, step: AssignmentStep)
    requires GreedyChoices(tasks, random, order, steps)
    ensures var n := |order + [t]| - 1; GreedyChoices(tasks, random, (order + [t])[..n], (steps + [step])[..n])
  {
    SnocPrefixes(order, steps, t, step);
  }

  lemma ChosenLast(tasks: seq<Task>, random: nat -> real, order: seq<Task>, steps: seq<AssignmentStep>,
                   remaining: real, t: Task, step: AssignmentStep)
    requires |order| == |steps|
    requires step.remainingTime + t.time == remaining
    requires ChosenNext(tasks, random, Ids(order), Draws(steps), remaining, t, step.justification)
    ensures var order', steps' := order + [t], steps + [step]; var n := |order'| - 1;
      ChosenNext(tasks, random, Ids(order'[..n]), Draws(steps'[..n]), steps'[n].remainingTime + order'[n].time, order'[n], steps'[n].justification)
  {
    SnocPrefixes(order, steps, t, step);
  }

  /** Placing the chain's pick in the open station keeps the run invariant. */
  lemma PlaceKeepsInvariant(
    tasks: seq<Task>, cycleTime: real, random: nat -> real, stations: seq<Station>, current: Station,
    assignedIds: set<int>, order: seq<Task>, steps: seq<AssignmentStep>, t: Task, justification: Justification)
    requires RunInvariant(tasks, cycleTime, stations, current, assignedIds, order, steps)
    requires ChosenNext(tasks, random, Ids(order), Draws(steps), current.remainingTime, t, justification)
    ensures var next := Station(current.id, current.tasks + [t], current.totalTime + t.time, current.remainingTime - t.time);
      var step := AssignmentStep(current.id, t.id, t.name, t.time, current.remainingTime - t.time, justification);
      && RunInvariant(tasks, cycleTime, stations, next, assignedIds + {t.id}, order + [t], steps + [step])
      && |assignedIds + {t.id}| == |assignedIds| + 1
  {
    ChosenIsEligible(tasks, random, Ids(order), Draws(steps), current.remainingTime, t, justification);
    AssignKeepsInvariant(tasks, cycleTime, stations, current, assignedIds, order, steps, t, justification);
  }

  /** Placing the chain's pick in the open station keeps the greedy record,
      and uses a roll exactly for a random pick. */
  lemma PlaceKeepsGreedy(
    tasks: seq<Task>, random: nat -> real, current: Station,
    order: seq<Task>, steps: seq<AssignmentStep>, t: Task, justification: Justification)
    requires GreedyChoices(tasks, random, order, steps)
    requires ChosenNext(tasks, random, Ids(order), Draws(steps), current.remainingTime, t, justification)
    ensures var step := AssignmentStep(current.id, t.id, t.name, t.time, current.remainingTime - t.time, justification);
      && GreedyChoices(tasks, random, order + [t], steps + [step])
      && Draws(steps + [step]) == Draws(steps) + (if justification == RandomAfterTie then 1 else 0)
  {
    var step := AssignmentStep(current.id, t.id, t.name, t.time, current.remainingTime - t.time, justification);
    GreedyAssign(tasks, random, order, steps, current.remainingTime, t, step);
    DrawsSnoc(steps, step);
  }

  /** The chain picks an eligible task. */
  lemma ChosenIsEligible(tasks: seq<Task>, random: nat -> real, placed: set<int>, draws: nat,
                         remaining: real, t: Task, justification: Justification)
    requires ChosenNext(tasks, random, placed, draws, remaining, t, justification)
    ensures t in tasks && IsAvailable(t, placed, remaining)
  {
  }

  /** Closing the open station when nothing fits in it keeps every closed
      station a full one. */
  lemma GreedyClose(tasks: seq<Task>, stations: seq<Station>, current: Station, order: seq<Task>)
    requires ClosedWhenFull(tasks, stations)
    requires Flatten(stations) + current.tasks == order
    requires forall t :: t in tasks ==> !IsAvailable(t, Ids(order), current.remainingTime)
    ensures ClosedWhenFull(tasks, if |current.tasks| > 0 then stations + [current] else stations)
  {
    if |current.tasks| > 0 {
      var closed := stations + [current];
      FlattenSnoc(stations, current);
      forall k | 0 <= k < |closed|
        ensures forall t :: t in tasks ==> !IsAvailable(t, Ids(Flatten(closed[..k + 1])), closed[k].remainingTime)
      {
        if k < |stations| {
          assert closed[..k + 1] == stations[..k + 1];
        } else {
          assert closed[..k + 1] == closed;
        }
      }
    }
  }

  /** When every task is placed, pushing the open station closes a full one:
      nothing unplaced is left to fit. */
  lemma CompletedGreedy(
    tasks: seq<Task>, random: nat -> real, cycleTime: real, stations: seq<Station>, current: Station,
    assignedIds: set<int>, order: seq<Task>, steps: seq<AssignmentStep>)
    requires RunInvariant(tasks, cycleTime, stations, current, assignedIds, order, steps)
    requires |assignedIds| >= |tasks|
    requires GreedyChoices(tasks, random, order, steps) && ClosedWhenFull(tasks, stations)
    ensures Greedy(tasks, random, if |current.tasks| > 0 then stations + [current] else stations, steps)
  {
    OrderWithinTasks(tasks, order);
    CompletedOrderIsPermutation(tasks, order);
    forall t | t in tasks
      ensures !IsAvailable(t, Ids(order), current.remainingTime)
    {
      assert t in multiset(order);
    }
    GreedyClose(tasks, stations, current, order);
    FinishRun(tasks, cycleTime, stations, current, assignedIds, order, steps);
  }

  /** A run so far: stations numbered from 1, none empty or overbooked,
      holding tasks of the list with distinct ids in an order that respects
      precedences, and the log matching their placements. */
  ghost predicate PartialRun(tasks: seq<Task>, cycleTime: real, stations: seq<Station>, steps: seq<AssignmentStep>)
  {
    && ClosedStations(stations, cycleTime)
    && LogMatches(steps, Placements(stations, cycleTime))
    && DistinctIds(Flatten(stations))
    && (forall t :: t in Flatten(stations) ==> t in tasks)
    && PrecedencesRespected(Flatten(stations))
  }

  /** Where a run gives up: some task is unplaced, and none of the unplaced
      ones fits even in an empty station. */
  predicate Stuck(tasks: seq<Task>, cycleTime: real, placed: set<int>)
  {
    |placed| < |tasks| && forall t :: t in tasks ==> !IsAvailable(t, placed, cycleTime)
  }

  /** A completed run of the greedy heuristic: a balanced line, built by
      the tie-break chain and closing stations only when full. */
  ghost predicate GreedyBalanced(tasks: seq<Task>, cycleTime: real, random: nat -> real,
                                 stations: seq<Station>, steps: seq<AssignmentStep>)
  {
    Balanced(tasks, cycleTime, stations, steps) && Greedy(tasks, random, stations, steps)
  }

  /** A run of the greedy heuristic that gave up with the stations closed so
      far: the placements so far are valid and greedy, nothing left fits
      even in an empty station, and `problems` is the diagnosis of the tasks
      still unplaced. */
  ghost predicate GreedyStall(tasks: seq<Task>, cycleTime: real, random: nat -> real,
                              stations: seq<Station>, steps: seq<AssignmentStep>, problems: seq<TaskDiagnosis>)
  {
    && PartialRun(tasks, cycleTime, stations, steps)
    && Greedy(tasks, random, stations, steps)
    && Stuck(tasks, cycleTime, Ids(Flatten(stations)))
    && problems == Diagnose(tasks, Ids(Flatten(stations)), cycleTime)
  }

  /** What a stalled run reports: every task of the diagnosis is one of the
      list's tasks with a stated reason, the diagnosis is not empty when ids
      are distinct, and a stall happens only to a list that is not
      schedulable. */
  lemma StallExplained(tasks: seq<Task>, cycleTime: real, random: nat -> real,
                       stations: seq<Station>, steps: seq<AssignmentStep>, problems: seq<TaskDiagnosis>)
    requires GreedyStall(tasks, cycleTime, random, stations, steps, problems)
    ensures forall d :: d in problems ==>
      d.task in tasks && (|d.invalidPrec| > 0 || |d.unmetPrec| > 0 || d.taskTooBig)
    ensures DistinctIds(tasks) ==> |problems| > 0
    ensures !Schedulable(tasks, cycleTime)
  {
    var placed := Ids(Flatten(stations));
    StalledDiagnosisExplains(tasks, placed, cycleTime);
    if DistinctIds(tasks) {
      StallLeavesUnassigned(tasks, placed, cycleTime);
    }
    if Schedulable(tasks, cycleTime) {
      IdsWithin(Flatten(stations), tasks);
      NeverStalls(tasks, placed, cycleTime);
      assert false;
    }
  }

  /** A stalled greedy run's report names every dangling precedence, and,
      when no task takes negative time, every task longer than the cycle. */
  lemma StallNamesCauses(tasks: seq<Task>, cycleTime: real, random: nat -> real,
                         stations: seq<Station>, steps: seq<AssignmentStep>, problems: seq<TaskDiagnosis>)
    requires GreedyStall(tasks, cycleTime, random, stations, steps, problems)
    requires DistinctIds(tasks)
    ensures forall t, p :: t in tasks && p in t.precedences && p !in Ids(tasks) ==>
      exists d :: d in problems && d.task == t && p in d.invalidPrec
    ensures (forall u :: u in tasks ==> u.time >= 0.0) ==>
      forall t :: t in tasks && t.time > cycleTime ==> exists d :: d in problems && d.task == t && d.taskTooBig
  {
    assert PartialRun(tasks, cycleTime, stations, steps);
    forall t, p | t in tasks && p in t.precedences && p !in Ids(tasks)
      ensures exists d :: d in problems && d.task == t && p in d.invalidPrec
    {
      StalledReportsDangling(tasks, cycleTime, stations, steps, t, p);
    }
    if forall u :: u in tasks ==> u.time >= 0.0 {
      forall t | t in tasks && t.time > cycleTime
        ensures exists d :: d in problems && d.task == t && d.taskTooBig
      {
        StalledReportsTooBig(tasks, cycleTime, stations, steps, t);
      }
    }
  }

  lemma IdsWithin(a: seq<Task>, b: seq<Task>)
    requires forall t :: t in a ==> t in b
    ensures Ids(a) <= Ids(b)
  {
  }

  lemma SameIdSameTask(tasks: seq<Task>, t: Task, u: Task)
    requires DistinctIds(tasks) && t in tasks && u in tasks && t.id == u.id
    ensures t == u
  {
    var i :| 0 <= i < |tasks| && tasks[i] == t;
    var j :| 0 <= j < |tasks| && tasks[j] == u;
  }

  /** An unplaced task has its own record in the diagnosis. */
  lemma DiagnosisOf(tasks: seq<Task>, placed: set<int>, cycleTime: real, t: Task)
    requires t in tasks && t.id !in placed
    ensures Diagnosis(tasks, placed, cycleTime, t) in Diagnose(tasks, placed, cycleTime)
  {
    var u := Unassigned(tasks, placed);
    assert t in u;
    var i :| 0 <= i < |u| && u[i] == t;
    assert Diagnose(tasks, placed, cycleTime)[i] == Diagnosis(tasks, placed, cycleTime, t);
  }

  /** A task that names a missing precedence is never placed, so a stalled
      run reports it with that precedence among the invalid ones. */
  lemma StalledReportsDangling(tasks: seq<Task>, cycleTime: real, stations: seq<Station>, steps: seq<AssignmentStep>,
                               t: Task, p: int)
    requires PartialRun(tasks, cycleTime, stations, steps) && DistinctIds(tasks)
    requires t in tasks && p in t.precedences && p !in Ids(tasks)
    ensures exists d :: d in Diagnose(tasks, Ids(Flatten(stations)), cycleTime) && d.task == t && p in d.invalidPrec
  {
    var order := Flatten(stations);
    if t.id in Ids(order) {
      var u :| u in order && u.id == t.id;
      SameIdSameTask(tasks, t, u);
      assert false;
    }
    DiagnosisOf(tasks, Ids(order), cycleTime, t);
  }

  /** Every task of a list is as long as it takes at most, when no task
      takes negative time. */
  lemma {:induction false} TimeWithinSum(tasks: seq<Task>, t: Task)
    requires t in tasks && forall u :: u in tasks ==> u.time >= 0.0
    ensures t.time <= SumTimes(tasks)
  {
    var init := tasks[..|tasks| - 1];
    assert tasks == init + [tasks[|tasks| - 1]];
    if t in init {
      TimeWithinSum(init, t);
      SumNonNegative(init);
    } else {
      SumNonNegative(init);
    }
  }

  lemma {:induction false} SumNonNegative(tasks: seq<Task>)
    requires forall u :: u in tasks ==> u.time >= 0.0
    ensures SumTimes(tasks) >= 0.0
  {
    if |tasks| > 0 {
      var init := tasks[..|tasks| - 1];
      assert forall u :: u in init ==> u in tasks;
      SumNonNegative(init);
    }
  }

  lemma {:induction false} FlattenMember(stations: seq<Station>, t: Task)
    requires t in Flatten(stations)
    ensures exists i :: 0 <= i < |stations| && t in stations[i].tasks
  {
    var n := |stations| - 1;
    if t !in stations[n].tasks {
      FlattenMember(stations[..n], t);
      var i :| 0 <= i < n && t in stations[..n][i].tasks;
      assert stations[i] == stations[..n][i];
    }
  }

  /** A task longer than the cycle fits in no station, so a stalled run
      reports it as too big. */
  lemma StalledReportsTooBig(tasks: seq<Task>, cycleTime: real, stations: seq<Station>, steps: seq<AssignmentStep>,
                             t: Task)
    requires PartialRun(tasks, cycleTime, stations, steps) && DistinctIds(tasks)
    requires forall u :: u in tasks ==> u.time >= 0.0
    requires t in tasks && t.time > cycleTime
    ensures exists d :: d in Diagnose(tasks, Ids(Flatten(stations)), cycleTime) && d.task == t && d.taskTooBig
  {
    var order := Flatten(stations);
    if t.id in Ids(order) {
      var u :| u in order && u.id == t.id;
      SameIdSameTask(tasks, t, u);
      FlattenMember(stations, t);
      var i :| 0 <= i < |stations| && t in stations[i].tasks;
      assert StationFits(stations[i], cycleTime);
      forall v | v in stations[i].tasks ensures v.time >= 0.0 {
        FlattenHolds(stations, i, v);
      }
      TimeWithinSum(stations[i].tasks, t);
      assert false;
    }
    DiagnosisOf(tasks, Ids(order), cycleTime, t);
  }

  lemma {:induction false} FlattenHolds(stations: seq<Station>, i: nat, v: Task)
    requires i < |stations| && v in stations[i].tasks
    ensures v in Flatten(stations)
  {
    var n := |stations| - 1;
    if i < n {
      FlattenHolds(stations[..n], i, v);
    }
  }

  // ---------------------------------------------------------------------
  // Inputs on which the run never stalls

  predicate StrictlyIncreasingIds(tasks: seq<Task>)
  {
    forall i, j :: 0 <= i < j < |tasks| ==> tasks[i].id < tasks[j].id
  }

  /** Every precedence names a task of the list with a smaller id. */
  predicate PrecedencesExistEarlier(tasks: seq<Task>)
  {
    forall t, p :: t in tasks && p in t.precedences ==> p in Ids(tasks) && p < t.id
  }

  /** The list the task form builds, with all references resolvable and all
      tasks fitting in one station. */
  predicate Schedulable(tasks: seq<Task>, cycleTime: real)
  {
    StrictlyIncreasingIds(tasks) && PrecedencesExistEarlier(tasks) &&
    forall t :: t in tasks ==> t.time <= cycleTime
  }

  lemma {:induction false} IdsCard(tasks: seq<Task>)
    requires DistinctIds(tasks)
    ensures |Ids(tasks)| == |tasks|
  {
    if |tasks| > 0 {
      var rest := tasks[..|tasks| - 1];
      var t := tasks[|tasks| - 1];
      assert tasks == rest + [t];
      IdsAppend(rest, t);
      IdsCard(rest);
    }
  }

  /** From an unassigned task, following unassigned precedences leads to an
      eligible task at an earlier position. */
  lemma {:induction false} EligibleAtOrBefore(tasks: seq<Task>, assignedIds: set<int>, cycleTime: real, i: nat)
    requires Schedulable(tasks, cycleTime)
    requires i < |tasks| && tasks[i].id !in assignedIds
    ensures exists t :: t in tasks && IsAvailable(t, assignedIds, cycleTime)
    decreases i
  {
    var t := tasks[i];
    if PrecedencesMet(t, assignedIds) {
      assert IsAvailable(t, assignedIds, cycleTime);
    } else {
      var p :| p in t.precedences && p !in assignedIds;
      assert t in tasks;
      assert p in Ids(tasks) && p < t.id;
      var u :| u in tasks && u.id == p;
      var j :| 0 <= j < |tasks| && tasks[j] == u;
      assert j < i;
      EligibleAtOrBefore(tasks, assignedIds, cycleTime, j);
    }
  }

  /** On a schedulable list an open, empty station always has an eligible
      task while some task is unassigned, so the stall counter never reaches
      its limit. */
  lemma NeverStalls(tasks: seq<Task>, assignedIds: set<int>, cycleTime: real)
    requires Schedulable(tasks, cycleTime)
    requires assignedIds <= Ids(tasks) && |assignedIds| < |tasks|
    ensures exists t :: t in tasks && IsAvailable(t, assignedIds, cycleTime)
  {
    assert DistinctIds(tasks);
    IdsCard(tasks);
    var i: nat :| i < |tasks| && tasks[i].id !in assignedIds by {
      if forall i :: 0 <= i < |tasks| ==> tasks[i].id in assignedIds {
        assert Ids(tasks) <= assignedIds;
        SubsetCard(Ids(tasks), assignedIds);
        assert false;
      }
    }
    EligibleAtOrBefore(tasks, assignedIds, cycleTime, i);
  }

  // ---------------------------------------------------------------------
  // Work that fits in one cycle

  lemma {:induction false} FlattenStartsWithFirst(stations: seq<Station>)
    requires |stations| > 0
    ensures Flatten(stations) == stations[0].tasks + Flatten(stations[1..])
    decreases |stations|
  {
    var n := |stations| - 1;
    if n == 0 {
      assert stations[1..] == [];
    } else {
      FlattenStartsWithFirst(stations[..n]);
      assert stations[..n][1..] == stations[1..][..n - 1];
      assert stations[..n][0] == stations[0];
      assert stations[1..][n - 1] == stations[n];
    }
  }

  lemma {:induction false} IdsBound(a: seq<Task>)
    ensures |Ids(a)| <= |a|
  {
    if |a| > 0 {
      var init := a[..|a| - 1];
      assert a == init + [a[|a| - 1]];
      IdsAppend(init, a[|a| - 1]);
      IdsBound(init);
    }
  }

  lemma MultisetCancelWithin(m: multiset<Task>, n: multiset<Task>, x: Task)
    requires m + multiset([x]) <= n + multiset([x])
    ensures m <= n
  {
    forall y ensures m[y] <= n[y] {
      assert (m + multiset([x]))[y] <= (n + multiset([x]))[y];
    }
  }

  /** A sub-multiset of tasks takes no longer than the whole, when no task
      takes negative time. */
  lemma {:induction false} SubSumWithin(a: seq<Task>, b: seq<Task>)
    requires multiset(a) <= multiset(b)
    requires forall u :: u in b ==> u.time >= 0.0
    ensures SumTimes(a) <= SumTimes(b)
    decreases |a|
  {
    if |a| == 0 {
      SumNonNegative(b);
    } else {
      var n := |a| - 1;
      var x := a[n];
      assert a == a[..n] + [x];
      assert x in multiset(b);
      var i :| 0 <= i < |b| && b[i] == x;
      var b' := b[..i] + b[i + 1..];
      MultisetRemove(b, i);
      SumTimesRemove(b, i);
      MultisetCancelWithin(multiset(a[..n]), multiset(b'), x);
      assert forall u :: u in b' ==> u in b;
      SubSumWithin(a[..n], b');
    }
  }

  /** A balanced line has at least as many stations as the work content
      needs cycles. */
  lemma StationsCoverWork(tasks: seq<Task>, cycleTime: real, stations: seq<Station>,
                          steps: seq<AssignmentStep>, k: nat)
    requires cycleTime > 0.0
    requires Balanced(tasks, cycleTime, stations, steps)
    requires SumTimes(tasks) > k as real * cycleTime
    ensures |stations| > k
  {
    CyclesNeeded(SumTimes(tasks), cycleTime, |stations|, k);
  }

  lemma CyclesNeeded(total: real, cycleTime: real, n: nat, k: nat)
    requires cycleTime > 0.0
    requires total <= n as real * cycleTime && total > k as real * cycleTime
    ensures n > k
  {
    if n <= k {
      MulMonotoneLe(n as real, k as real, cycleTime);
    }
  }

  /** While tasks are left over, a station holding part of a list whose
      work fits in one cycle still has room for an eligible task. */
  lemma RoomForAnother(tasks: seq<Task>, cycleTime: real, first: Station, rest: seq<Task>)
    requires multiset(first.tasks) + multiset(rest) == multiset(tasks) && |rest| > 0
    requires StationFits(first, cycleTime)
    requires Schedulable(tasks, cycleTime)
    requires forall t :: t in tasks ==> t.time >= 0.0
    requires SumTimes(tasks) <= cycleTime
    ensures exists t :: t in tasks && IsAvailable(t, Ids(first.tasks), first.remainingTime)
  {
    var placed := Ids(first.tasks);
    assert placed <= Ids(tasks) by {
      forall u | u in first.tasks ensures u in tasks {
        assert u in multiset(tasks);
      }
    }
    IdsBound(first.tasks);
    assert |first.tasks| < |tasks| by {
      assert |multiset(tasks)| == |tasks|;
    }
    NeverStalls(tasks, placed, cycleTime);
    var t :| t in tasks && IsAvailable(t, placed, cycleTime);
    assert t !in first.tasks;
    assert multiset(tasks)[t] == multiset(first.tasks)[t] + multiset(rest)[t];
    assert multiset(first.tasks + [t]) <= multiset(tasks) by {
      assert multiset(first.tasks + [t]) == multiset(first.tasks) + multiset([t]);
      assert multiset([t]) <= multiset(rest);
    }
    SubSumWithin(first.tasks + [t], tasks);
    SumTimesSnoc(first.tasks, t);
    assert t.time <= first.remainingTime;
    assert IsAvailable(t, placed, first.remainingTime);
  }

  /** When the list's whole work content fits in one cycle and every task
      is eligible in time, the greedy run never closes a station before the
      last: the first station keeps room for every task still unplaced, so it
      takes them all. */
  lemma OneStationWhenWorkFits(tasks: seq<Task>, cycleTime: real, random: nat -> real,
                               stations: seq<Station>, steps: seq<AssignmentStep>)
    requires GreedyBalanced(tasks, cycleTime, random, stations, steps)
    requires Schedulable(tasks, cycleTime)
    requires forall t :: t in tasks ==> t.time >= 0.0
    requires SumTimes(tasks) <= cycleTime
    ensures |stations| == 1
  {
    assert multiset(Flatten(stations)) == multiset(tasks);
    assert ClosedStations(stations, cycleTime) && ClosedWhenFull(tasks, stations);
    if |stations| > 1 {
      var rest := Flatten(stations[1..]);
      FlattenStartsWithFirst(stations);
      FlattenStartsWithFirst(stations[1..]);
      assert stations[1..][0] == stations[1];
      assert Flatten(stations[..1]) == stations[0].tasks by {
        FlattenStartsWithFirst(stations[..1]);
        assert stations[..1][1..] == [];
      }
      RoomForAnother(tasks, cycleTime, stations[0], rest);
    }
  }
}
