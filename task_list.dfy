/**
 * The task form: the list of tasks the user enters before balancing, the id
 * the next task will get, and the edits the form offers (add, remove, load
 * the example set, hand the list to the store). Every edit builds a new
 * list; nothing is changed in place.
 */
module TaskList {
  import opened Text
  import opened LineBalancing
  import opened BalancingRun
  import PrecedenceDiagram

  /** The three fields of the add-task form as submitted. */
  datatype TaskFormValues = TaskFormValues(name: string, time: real, precedences: string)

  /** The form's state: the tasks entered so far and the next free id. */
  datatype TaskForm = TaskForm(tasks: seq<Task>, nextId: int)

  /** Nothing entered yet; the first task gets id 1. */
  const InitialForm := TaskForm([], 1)

  const MaxNameLength: nat := 50
  const MinTaskTime: real := 0.1
  const MaxTaskTime: real := 10000.0

  /** The schema's bounds on a new task's name (its length in UTF-16 code
      units, as JavaScript counts it) and time. */
  predicate SchemaAccepts(v: TaskFormValues)
  {
    1 <= Utf16Length(v.name) <= MaxNameLength && MinTaskTime <= v.time <= MaxTaskTime
  }

  // ---------------------------------------------------------------------
  // Precedence field

  /** One field of the precedence input: trimmed, then read by `parseInt`
      (None for NaN). */
  function FieldValue(f: string): Option<int>
  {
    ParseInt(Trim(f))
  }

  /** `.map(...)` over the fields: each one's value. */
  function FieldValues(fields: seq<string>): (r: seq<Option<int>>)
    ensures |r| == |fields|
    ensures forall i :: 0 <= i < |fields| ==> r[i] == FieldValue(fields[i])
  {
    seq(|fields|, i requires 0 <= i < |fields| => FieldValue(fields[i]))
  }

  /** `.filter(...)` over the values: NaN and ids that are not below
      `nextId` are dropped, the rest kept in order. */
  function KeepBelow(values: seq<Option<int>>, nextId: int): (r: seq<int>)
    ensures |r| <= |values|
    ensures forall k :: 0 <= k < |r| ==> r[k] < nextId
    ensures forall p :: p in r <==> Some(p) in values && p < nextId
  {
    if |values| == 0 then []
    else
      var init := values[..|values| - 1];
      var last := values[|values| - 1];
      assert values == init + [last];
      KeepBelow(init, nextId) + (if last.Some? && last.value < nextId then [last.value] else [])
  }

  /** KeepBelow works value by value and keeps the survivors in their
      order: a single value stays exactly when it is a number below
      `nextId`, and filtering a concatenation concatenates the filtered
      parts. */
  lemma KeepBelowSingle(x: Option<int>, nextId: int)
    ensures KeepBelow([x], nextId) == if x.Some? && x.value < nextId then [x.value] else []
  {
    assert [x][..0] == [];
  }

  lemma KeepBelowSnoc(values: seq<Option<int>>, nextId: int)
    requires |values| > 0
    ensures var last := values[|values| - 1];
      KeepBelow(values, nextId) ==
        KeepBelow(values[..|values| - 1], nextId) + (if last.Some? && last.value < nextId then [last.value] else [])
  {
  }

  lemma {:induction false} KeepBelowAppend(a: seq<Option<int>>, b: seq<Option<int>>, nextId: int)
    ensures KeepBelow(a + b, nextId) == KeepBelow(a, nextId) + KeepBelow(b, nextId)
  {
    if |b| == 0 {
      assert a + b == a;
    } else {
      var init := b[..|b| - 1];
      var ab := a + b;
      assert ab[..|ab| - 1] == a + init;
      assert ab[|ab| - 1] == b[|b| - 1];
      KeepBelowSnoc(ab, nextId);
      KeepBelowSnoc(b, nextId);
      KeepBelowAppend(a, init, nextId);
    }
  }

  /** The precedence ids read from the comma-separated field: exactly the
      fields that parse to a number below `nextId`, in the order typed. */
  function ParsePrecedences(s: string, nextId: int): (r: seq<int>)
    ensures forall k :: 0 <= k < |r| ==> r[k] < nextId
    ensures forall p :: p in r <==> p < nextId && Some(p) in FieldValues(Split(s, ','))
  {
    KeepBelow(FieldValues(Split(s, ',')), nextId)
  }

  lemma FieldValuesAppend(x: seq<string>, y: seq<string>)
    ensures FieldValues(x + y) == FieldValues(x) + FieldValues(y)
  {
  }

  /** Reading the field is field by field: the precedences of a field
      followed by a comma and more text are that field's precedences
      followed by those of the rest. */
  lemma ParsePrecedencesAppend(a: string, b: string, nextId: int)
    requires ',' !in a
    ensures ParsePrecedences(a + [','] + b, nextId) == ParsePrecedences(a, nextId) + ParsePrecedences(b, nextId)
  {
    var rest := Split(b, ',');
    SplitField(a, ',', b);
    SplitSingle(a, ',');
    FieldValuesAppend([a], rest);
    KeepBelowAppend(FieldValues([a]), FieldValues(rest), nextId);
  }

  /** The ids written out in decimal, one field each. */
  function Rendered(ps: seq<int>): (r: seq<string>)
    ensures |r| == |ps|
    ensures forall k :: 0 <= k < |ps| ==> r[k] == IntString(ps[k])
  {
    seq(|ps|, k requires 0 <= k < |ps| => IntString(ps[k]))
  }

  lemma RenderedChar(c: char)
    requires c == '-' || '0' <= c <= '9'
    ensures !IsJsWhitespace(c) && c != ','
  {
  }

  lemma IntStringTrimmed(p: int)
    ensures Trim(IntString(p)) == IntString(p)
    ensures ',' !in IntString(p)
  {
    var s := IntString(p);
    forall i | 0 <= i < |s|
      ensures !IsJsWhitespace(s[i]) && s[i] != ','
    {
      RenderedChar(s[i]);
    }
    TrimNoWhitespace(s);
  }

  lemma FieldValueRendered(p: int)
    ensures FieldValue(IntString(p)) == Some(p)
  {
    IntStringTrimmed(p);
    ParseIntString(p);
  }

  lemma {:induction false} KeepBelowAll(ps: seq<int>, nextId: int)
    requires forall k :: 0 <= k < |ps| ==> ps[k] < nextId
    ensures KeepBelow(seq(|ps|, i requires 0 <= i < |ps| => Some(ps[i])), nextId) == ps
  {
    if |ps| > 0 {
      var init := ps[..|ps| - 1];
      var values := seq(|ps|, i requires 0 <= i < |ps| => Some(ps[i]));
      assert values[..|ps| - 1] == seq(|init|, i requires 0 <= i < |init| => Some(init[i]));
      KeepBelowAll(init, nextId);
      assert init + [ps[|ps| - 1]] == ps;
    }
  }

  lemma KeepBelowRendered(ps: seq<int>, nextId: int)
    requires forall k :: 0 <= k < |ps| ==> ps[k] < nextId
    ensures KeepBelow(FieldValues(Rendered(ps)), nextId) == ps
  {
    var values := FieldValues(Rendered(ps));
    forall i | 0 <= i < |ps|
      ensures values[i] == Some(ps[i])
    {
      FieldValueRendered(ps[i]);
    }
    assert values == seq(|ps|, i requires 0 <= i < |ps| => Some(ps[i]));
    KeepBelowAll(ps, nextId);
  }

  /** Typing a list of ids below `nextId`, separated by commas, gives back
      exactly that list, in order and with repetitions. */
  lemma ParsePrecedencesRoundTrip(ps: seq<int>, nextId: int)
    requires |ps| >= 1
    requires forall k :: 0 <= k < |ps| ==> ps[k] < nextId
    ensures ParsePrecedences(Join(Rendered(ps), ','), nextId) == ps
  {
    var parts := Rendered(ps);
    forall k | 0 <= k < |parts|
      ensures ',' !in parts[k]
    {
      IntStringTrimmed(ps[k]);
    }
    SplitJoin(parts, ',');
    KeepBelowRendered(ps, nextId);
  }

  /** An empty precedence field gives no precedences. */
  lemma EmptyFieldNoPrecedences(nextId: int)
    ensures ParsePrecedences("", nextId) == []
  {
    assert Split("", ',') == [""];
    assert FieldValues([""]) == [None];
  }

  // ---------------------------------------------------------------------
  // Edits

  /** Submitting the form: rejected values leave the form as it was;
      accepted ones append a task with id `nextId` and advance `nextId`. */
  function Submit(form: TaskForm, v: TaskFormValues): (r: TaskForm)
    ensures !SchemaAccepts(v) ==> r == form
    ensures SchemaAccepts(v) ==>
      && |r.tasks| == |form.tasks| + 1
      && r.tasks[..|form.tasks|] == form.tasks
      && r.tasks[|form.tasks|] == Task(form.nextId, v.name, v.time, ParsePrecedences(v.precedences, form.nextId))
      && r.nextId == form.nextId + 1
  {
    if !SchemaAccepts(v) then form
    else
      var t := Task(form.nextId, v.name, v.time, ParsePrecedences(v.precedences, form.nextId));
      TaskForm(form.tasks + [t], form.nextId + 1)
  }

  /** Removing by id: every task with that id goes, the rest stay in order;
      `nextId` is not touched, so ids are never reused. */
  function RemoveTask(form: TaskForm, id: int): (r: TaskForm)
    ensures r.nextId == form.nextId
    ensures forall t :: t in r.tasks <==> t in form.tasks && t.id != id
  {
    TaskForm(Filter(form.tasks, (t: Task) => t.id != id), form.nextId)
  }

  /** Removal works task by task and keeps the survivors in their order:
      removing from a concatenation concatenates the removals, and a single
      task stays exactly when its id differs. */
  lemma RemoveKeepsOrder(a: seq<Task>, b: seq<Task>, nextId: int, id: int)
    ensures RemoveTask(TaskForm(a + b, nextId), id).tasks ==
      RemoveTask(TaskForm(a, nextId), id).tasks + RemoveTask(TaskForm(b, nextId), id).tasks
    ensures forall t :: RemoveTask(TaskForm([t], nextId), id).tasks == if t.id == id then [] else [t]
  {
    FilterAppend(a, b, (t: Task) => t.id != id);
    forall t
      ensures RemoveTask(TaskForm([t], nextId), id).tasks == if t.id == id then [] else [t]
    {
      assert [t][..0] == [];
    }
  }

  /** Removing an id that no task has changes nothing. */
  lemma RemoveAbsent(form: TaskForm, id: int)
    requires id !in Ids(form.tasks)
    ensures RemoveTask(form, id) == form
  {
    FilterAll(form.tasks, (t: Task) => t.id != id);
  }

  /** The example data set. */
  const ExampleTasks: seq<Task> := [
    Task(1, "Cortar material", 45.0, []),
    Task(2, "Lijar piezas", 30.0, [1]),
    Task(3, "Perforar", 25.0, [1]),
    Task(4, "Pintar base", 40.0, [2, 3]),
    Task(5, "Ensamblar estructura", 50.0, [4]),
    Task(6, "Instalar componentes", 35.0, [5]),
    Task(7, "Inspecci\U{F3}n calidad", 20.0, [6]),
    Task(8, "Empaquetado", 25.0, [7])
  ]

  /** Loading the example replaces the list and sets `nextId` past it. */
  function LoadExampleTasks(form: TaskForm): (r: TaskForm)
    ensures |r.tasks| == 8 && r.nextId == 9
    ensures forall i :: 0 <= i < |r.tasks| ==> r.tasks[i].id == i + 1
  {
    TaskForm(ExampleTasks, 9)
  }

  /** Finishing the step: an empty list is refused, otherwise the list is
      handed over as it is. */
  function HandleComplete(form: TaskForm): (r: Option<seq<Task>>)
    ensures r.None? <==> |form.tasks| == 0
    ensures r.Some? ==> r.value == form.tasks
  {
    if |form.tasks| == 0 then None else Some(form.tasks)
  }

  // ---------------------------------------------------------------------
  // What every list the form builds satisfies

  /** Ids strictly increasing, positive and below `nextId`; every precedence
      below its own task's id; names and times within the schema. */
  predicate WellFormed(form: TaskForm)
  {
    && form.nextId >= 1
    && StrictlyIncreasingIds(form.tasks)
    && forall t :: t in form.tasks ==> TaskWellFormed(t, form.nextId)
  }

  /** A task the form can hold: an id already handed out, precedences
      naming smaller ids, and a name and time within the schema's bounds. */
  predicate TaskWellFormed(t: Task, nextId: int)
  {
    && 1 <= t.id < nextId
    && (forall k :: 0 <= k < |t.precedences| ==> t.precedences[k] < t.id)
    && 1 <= Utf16Length(t.name) <= MaxNameLength && MinTaskTime <= t.time <= MaxTaskTime
  }

  lemma InitialWellFormed()
    ensures WellFormed(InitialForm)
  {
  }

  /** Appending a well-formed task carrying the next id keeps the form
      well-formed once the next id moves on. */
  lemma AppendKeepsWellFormed(tasks: seq<Task>, nextId: int, t: Task)
    requires WellFormed(TaskForm(tasks, nextId))
    requires t.id == nextId && TaskWellFormed(t, nextId + 1)
    ensures WellFormed(TaskForm(tasks + [t], nextId + 1))
  {
    var r := tasks + [t];
    forall i, j | 0 <= i < j < |r|
      ensures r[i].id < r[j].id
    {
      if j == |tasks| {
        assert tasks[i] in tasks;
      }
    }
  }

  /** An accepted submission makes a task the form can hold. */
  lemma NewTaskWellFormed(nextId: int, v: TaskFormValues)
    requires nextId >= 1 && SchemaAccepts(v)
    ensures TaskWellFormed(Task(nextId, v.name, v.time, ParsePrecedences(v.precedences, nextId)), nextId + 1)
  {
  }

  lemma SubmitKeepsWellFormed(form: TaskForm, v: TaskFormValues)
    requires WellFormed(form)
    ensures WellFormed(Submit(form, v))
  {
    if SchemaAccepts(v) {
      var t := Task(form.nextId, v.name, v.time, ParsePrecedences(v.precedences, form.nextId));
      assert Submit(form, v) == TaskForm(form.tasks + [t], form.nextId + 1);
      AcceptedKeepsWellFormed(form, v);
    }
  }

  lemma AcceptedKeepsWellFormed(form: TaskForm, v: TaskFormValues)
    requires WellFormed(form) && SchemaAccepts(v)
    ensures WellFormed(TaskForm(form.tasks + [Task(form.nextId, v.name, v.time, ParsePrecedences(v.precedences, form.nextId))],
                                form.nextId + 1))
  {
    NewTaskWellFormed(form.nextId, v);
    AppendKeepsWellFormed(form.tasks, form.nextId, Task(form.nextId, v.name, v.time, ParsePrecedences(v.precedences, form.nextId)));
  }

  /** Filtering keeps strictly increasing ids strictly increasing. */
  lemma {:induction false} FilterKeepsIncreasing(s: seq<Task>, keep: Task -> bool)
    requires StrictlyIncreasingIds(s)
    ensures StrictlyIncreasingIds(Filter(s, keep))
  {
    if |s| > 0 {
      var init := s[..|s| - 1];
      var last := s[|s| - 1];
      assert StrictlyIncreasingIds(init);
      FilterKeepsIncreasing(init, keep);
      var f := Filter(init, keep);
      forall k | 0 <= k < |f|
        ensures f[k].id < last.id
      {
        assert f[k] in init;
        var i :| 0 <= i < |init| && init[i] == f[k];
        assert s[i] == init[i];
      }
    }
  }

  lemma RemoveKeepsWellFormed(form: TaskForm, id: int)
    requires WellFormed(form)
    ensures WellFormed(RemoveTask(form, id))
  {
    FilterKeepsIncreasing(form.tasks, (t: Task) => t.id != id);
  }

  /** Each example task: id `i + 1`, precedences between 1 and its own id,
      a name and time the schema accepts. */
  lemma ExampleTaskFacts(i: nat)
    requires i < |ExampleTasks|
    ensures ExampleTasks[i].id == i + 1
    ensures forall k :: 0 <= k < |ExampleTasks[i].precedences| ==>
      1 <= ExampleTasks[i].precedences[k] < ExampleTasks[i].id
    ensures 1 <= Utf16Length(ExampleTasks[i].name) <= MaxNameLength
    ensures 20.0 <= ExampleTasks[i].time <= 50.0
  {
  }

  /** Loading the example gives a well-formed form, whatever was there. */
  lemma ExampleWellFormed(form: TaskForm)
    ensures WellFormed(LoadExampleTasks(form))
  {
    forall i | 0 <= i < |ExampleTasks| {
      ExampleTaskFacts(i);
    }
  }

  /** Every precedence of the example names an earlier task of the set. */
  lemma ExampleClosed()
    ensures PrecedencesExistEarlier(ExampleTasks)
  {
    var e := ExampleTasks;
    forall i | 0 <= i < |e| {
      ExampleTaskFacts(i);
    }
    forall t, p | t in e && p in t.precedences
      ensures p in Ids(e) && p < t.id
    {
      var i :| 0 <= i < |e| && e[i] == t;
      var k :| 0 <= k < |t.precedences| && t.precedences[k] == p;
      assert e[p - 1].id == p;
    }
  }

  /** The example's total work content. */
  lemma ExampleTotal()
    ensures SumTimes(ExampleTasks) == 270.0
  {
    var e := ExampleTasks;
    assert SumTimes(e[..1]) == 45.0;
    assert SumTimes(e[..2]) == 75.0 by { assert e[..2][..1] == e[..1]; }
    assert SumTimes(e[..3]) == 100.0 by { assert e[..3][..2] == e[..2]; }
    assert SumTimes(e[..4]) == 140.0 by { assert e[..4][..3] == e[..3]; }
    assert SumTimes(e[..5]) == 190.0 by { assert e[..5][..4] == e[..4]; }
    assert SumTimes(e[..6]) == 225.0 by { assert e[..6][..5] == e[..5]; }
    assert SumTimes(e[..7]) == 245.0 by { assert e[..7][..6] == e[..6]; }
    assert e[..8][..7] == e[..7] && e[..8] == e;
  }

  // ---------------------------------------------------------------------
  // What that means for the diagram and the balancing run

  /** Ids on a well-formed list are distinct. */
  lemma WellFormedDistinct(form: TaskForm)
    requires WellFormed(form)
    ensures DistinctIds(form.tasks)
  {
  }

  /** A well-formed list has no precedence cycle, so the diagram's levels
      on it are the longest-path depths. */
  lemma WellFormedLevelOrdered(form: TaskForm)
    requires WellFormed(form)
    ensures PrecedenceDiagram.LevelOrdered(form.tasks)
  {
  }

  /** A well-formed list whose precedences all name tasks still on the
      list, and whose tasks each fit in one cycle, balances. */
  lemma WellFormedSchedulable(form: TaskForm, cycleTime: real)
    requires WellFormed(form)
    requires forall t, p :: t in form.tasks && p in t.precedences ==> p in Ids(form.tasks)
    requires forall t :: t in form.tasks ==> t.time <= cycleTime
    ensures Schedulable(form.tasks, cycleTime)
  {
    forall t, p | t in form.tasks && p in t.precedences
      ensures p < t.id
    {
      var k :| 0 <= k < |t.precedences| && t.precedences[k] == p;
    }
  }

  /** The example set balances with any cycle time of at least 50, the
      longest task. */
  lemma ExampleSchedulable(cycleTime: real)
    requires cycleTime >= 50.0
    ensures Schedulable(ExampleTasks, cycleTime)
  {
    ExampleClosed();
    forall i | 0 <= i < |ExampleTasks| {
      ExampleTaskFacts(i);
    }
  }

  /** Balancing the example set greedily with a cycle time of at least its
      270 minutes of work gives exactly one station. */
  lemma ExampleOneStation(cycleTime: real, random: nat -> real,
                          stations: seq<Station>, steps: seq<AssignmentStep>)
    requires cycleTime >= 270.0
    requires GreedyBalanced(ExampleTasks, cycleTime, random, stations, steps)
    ensures |stations| == 1
  {
    ExampleTotal();
    ExampleSchedulable(cycleTime);
    forall i | 0 <= i < |ExampleTasks| {
      ExampleTaskFacts(i);
    }
    OneStationWhenWorkFits(ExampleTasks, cycleTime, random, stations, steps);
  }

  /** Any balanced line for the example with a shorter cycle time needs at
      least two stations. */
  lemma ExampleNeedsTwoStations(cycleTime: real, stations: seq<Station>, steps: seq<AssignmentStep>)
    requires 0.0 < cycleTime < 270.0
    requires Balanced(ExampleTasks, cycleTime, stations, steps)
    ensures |stations| >= 2
  {
    ExampleTotal();
    StationsCoverWork(ExampleTasks, cycleTime, stations, steps, 1);
  }

  /** Removing a task does not edit the precedences of the others: after
      removing task 1 from the example, task 2 still names it. */
  lemma RemovalLeavesDanglingPrecedence()
    ensures var r := RemoveTask(LoadExampleTasks(InitialForm), 1);
      ExampleTasks[1] in r.tasks && 1 in ExampleTasks[1].precedences && 1 !in Ids(r.tasks)
  {
    var r := RemoveTask(LoadExampleTasks(InitialForm), 1);
    assert ExampleTasks[1] in ExampleTasks;
    assert forall u :: u in r.tasks ==> u.id != 1;
  }

  /** So no run over the remaining list can complete. */
  lemma RemovalBlocksBalancing(cycleTime: real, stations: seq<Station>, steps: seq<AssignmentStep>)
    ensures !Balanced(RemoveTask(LoadExampleTasks(InitialForm), 1).tasks, cycleTime, stations, steps)
  {
    RemovalLeavesDanglingPrecedence();
    var r := RemoveTask(LoadExampleTasks(InitialForm), 1);
    UnresolvableNeverBalances(r.tasks, cycleTime, stations, steps, ExampleTasks[1], 1);
  }
}
