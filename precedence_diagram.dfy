/**
 * The precedence diagram: each task's level (its depth in the precedence
 * graph, computed by a memoised recursion with a guard against cycles),
 * the grouping of tasks into one column per level, node positions, the
 * edge list, and the colour of each node by the station it was assigned to.
 */
module PrecedenceDiagram {
  import opened Text
  import opened LineBalancing
  import opened BalancingRun

  /** `tasks.find(t => t.id === id)`: the first task with that id. */
  function FindTask(tasks: seq<Task>, id: int): (r: Option<Task>)
    ensures r.None? <==> id !in Ids(tasks)
    ensures r.Some? ==> r.value in tasks && r.value.id == id
    ensures r.Some? ==> exists i :: 0 <= i < |tasks| && tasks[i] == r.value && forall j :: 0 <= j < i ==> tasks[j].id != id
  {
    if |tasks| == 0 then None
    else if tasks[0].id == id then Some(tasks[0])
    else
      var r := FindTask(tasks[1..], id);
      assert Ids(tasks) == {tasks[0].id} + Ids(tasks[1..]);
      r
  }

  function Max(a: nat, b: nat): nat
  {
    if a < b then b else a
  }

  // ---------------------------------------------------------------------
  // Levels: the reference definition

  /** The lists the task form builds: ids non-negative and every precedence
      smaller than the id of its task, so the graph has no cycle. */
  predicate LevelOrdered(tasks: seq<Task>)
  {
    forall t :: t in tasks ==>
      t.id >= 0 && forall k :: 0 <= k < |t.precedences| ==> t.precedences[k] < t.id
  }

  /** The level of an id on an acyclic list: 0 for an id with no task or a
      task with no precedences, otherwise one more than the largest level
      among its precedences. */
  function Level(tasks: seq<Task>, id: int): nat
    requires LevelOrdered(tasks)
    decreases if id < 0 then 0 else id + 1, 1, 0
  {
    match FindTask(tasks, id)
    case None => 0
    case Some(t) => if |t.precedences| == 0 then 0 else 1 + MaxLevel(tasks, t.precedences, t.id)
  }

  /** The largest level among `ps` (0 for none). */
  function MaxLevel(tasks: seq<Task>, ps: seq<int>, bound: int): (m: nat)
    requires LevelOrdered(tasks) && bound >= 0
    requires forall k :: 0 <= k < |ps| ==> ps[k] < bound
    ensures forall p :: p in ps ==> Level(tasks, p) <= m
    ensures |ps| > 0 ==> exists p :: p in ps && Level(tasks, p) == m
    decreases bound + 1, 0, |ps|
  {
    if |ps| == 0 then 0
    else
      var init := ps[..|ps| - 1];
      assert forall p :: p in init ==> p in ps;
      var m := Max(MaxLevel(tasks, init, bound), Level(tasks, ps[|ps| - 1]));
      assert forall p :: p in ps ==> p in init || p == ps[|ps| - 1];
      m
  }

  /** A task's level exceeds the level of each of its precedences, and by
      exactly one for the deepest of them; tasks with no precedences, and
      ids with no task, are at level 0. */
  lemma LevelStructure(tasks: seq<Task>, t: Task)
    requires LevelOrdered(tasks)
    requires FindTask(tasks, t.id) == Some(t)
    ensures |t.precedences| == 0 ==> Level(tasks, t.id) == 0
    ensures forall p :: p in t.precedences ==> Level(tasks, p) < Level(tasks, t.id)
    ensures |t.precedences| > 0 ==> exists p :: p in t.precedences && Level(tasks, t.id) == Level(tasks, p) + 1
  {
    if |t.precedences| > 0 {
      var m := MaxLevel(tasks, t.precedences, t.id);
      assert Level(tasks, t.id) == 1 + m;
    }
  }

  // ---------------------------------------------------------------------
  // Levels: the memoised computation

  /** The ids among `ids` that are visited but not cached. */
  function PendingOf(ids: set<int>, visited: set<int>, levels: map<int, nat>): set<int>
  {
    set v | v in ids && v in visited && v !in levels
  }

  lemma PendingVisit(ids: set<int>, visited: set<int>, levels: map<int, nat>, id: int)
    requires id !in levels
    ensures PendingOf(ids, visited + {id}, levels) == PendingOf(ids, visited, levels) + (if id in ids then {id} else {})
  {
  }

  lemma PendingCache(ids: set<int>, visited: set<int>, levels: map<int, nat>, id: int, level: nat)
    ensures PendingOf(ids, visited, levels[id := level]) == PendingOf(ids, visited, levels) - {id}
  {
  }

  /** `b` keeps every entry of `a`. */
  predicate Extends(a: map<int, nat>, b: map<int, nat>)
  {
    forall k :: k in a ==> k in b && b[k] == a[k]
  }

  lemma PrecedencesBelow(tasks: seq<Task>, task: Task)
    requires LevelOrdered(tasks) && task in tasks
    ensures task.id >= 0 && forall k :: 0 <= k < |task.precedences| ==> task.precedences[k] < task.id
  {
  }

  /** The level cache and the visited set of one layout pass. */
  class LevelLayout {
    const tasks: seq<Task>
    var levels: map<int, nat>
    var visited: set<int>

    constructor (tasks: seq<Task>)
      ensures this.tasks == tasks && levels == map[] && visited == {}
    {
      this.tasks := tasks;
      levels := map[];
      visited := {};
    }

    /** Task ids that are visited but have no cached level yet: the ids on
        the current recursion path. */
    function Pending(): set<int>
      reads this
    {
      PendingOf(Ids(tasks), visited, levels)
    }

    /** Every cached level is the reference level. */
    predicate LevelsCorrect()
      reads this
      requires LevelOrdered(tasks)
    {
      forall k :: k in levels ==> levels[k] == Level(tasks, k)
    }

    /** `calculateLevel(taskId)`. A cached level is returned as is; an id
        already on the recursion path gives 0, which cuts cycles; an id with
        no task gives 0; otherwise the level is computed from the
        precedences, cached and returned. On an acyclic list the result is
        the reference level. */
    method CalculateLevel(id: int) returns (level: nat)
      modifies this
      requires levels.Keys <= visited && levels.Keys <= Ids(tasks)
      requires LevelOrdered(tasks) ==> LevelsCorrect() && forall v :: v in Pending() ==> v > id
      ensures levels.Keys <= visited && levels.Keys <= Ids(tasks)
      ensures old(visited) <= visited
      ensures Extends(old(levels), levels)
      ensures Pending() == old(Pending())
      ensures id in old(levels) ==> level == old(levels[id]) && levels == old(levels) && visited == old(visited)
      ensures id !in old(levels) && id in old(visited) ==> level == 0 && levels == old(levels) && visited == old(visited)
      ensures id !in Ids(tasks) ==> level == 0 && id !in levels
      ensures id in Ids(tasks) && id !in old(Pending()) ==> id in levels && levels[id] == level
      ensures id in Ids(tasks) && id !in old(visited) && |FindTask(tasks, id).value.precedences| == 0 ==> level == 0
      ensures id in Ids(tasks) && id !in old(visited) && |FindTask(tasks, id).value.precedences| > 0 ==> level >= 1
      ensures LevelOrdered(tasks) ==> LevelsCorrect() && level == Level(tasks, id)
      decreases Ids(tasks) - visited, 1
    {
      if id in levels {
        return levels[id];
      }
      if id in visited {
        return 0;
      }
      PendingVisit(Ids(tasks), visited, levels, id);
      visited := visited + {id};
      var found := FindTask(tasks, id);
      if found.None? {
        return 0;
      }
      var task := found.value;
      if |task.precedences| == 0 {
        PendingCache(Ids(tasks), visited, levels, id, 0);
        levels := levels[id := 0];
        return 0;
      }
      assert Pending() == old(Pending()) + {id};
      var maxLevel := MaxPrecedenceLevel(task);
      level := maxLevel + 1;
      PendingCache(Ids(tasks), visited, levels, id, level);
      levels := levels[id := level];
    }

    /** `Math.max(...task.precedences.map(calculateLevel))` for a task that
        is marked visited and not yet cached: the precedences' levels are
        computed in order, and their maximum is returned. */
    method MaxPrecedenceLevel(task: Task) returns (maxLevel: nat)
      modifies this
      requires task in tasks && task.id in visited && task.id !in levels
      requires levels.Keys <= visited && levels.Keys <= Ids(tasks)
      requires LevelOrdered(tasks) ==> LevelsCorrect() && forall v :: v in Pending() ==> v >= task.id
      ensures levels.Keys <= visited && levels.Keys <= Ids(tasks)
      ensures old(visited) <= visited
      ensures Extends(old(levels), levels)
      ensures Pending() == old(Pending())
      ensures LevelOrdered(tasks) ==> LevelsCorrect() && maxLevel == MaxLevel(tasks, task.precedences, task.id)
      decreases (Ids(tasks) - visited) + {task.id}, 0
    {
      ghost var ordered := LevelOrdered(tasks);
      if ordered {
        PrecedencesBelow(tasks, task);
      }
      maxLevel := 0;
      var i := 0;
      while i < |task.precedences|
        invariant 0 <= i <= |task.precedences|
        invariant levels.Keys <= visited && levels.Keys <= Ids(tasks)
        invariant old(visited) <= visited
        invariant Extends(old(levels), levels)
        invariant Pending() == old(Pending())
        invariant ordered ==> task.id >= 0 && forall k :: 0 <= k < |task.precedences| ==> task.precedences[k] < task.id
        invariant ordered ==> LevelsCorrect() && maxLevel == MaxLevel(tasks, task.precedences[..i], task.id)
      {
        var l := CalculateLevel(task.precedences[i]);
        if l > maxLevel {
          maxLevel := l;
        }
        assert task.precedences[..i + 1][..i] == task.precedences[..i];
        i := i + 1;
      }
      assert task.precedences[..i] == task.precedences;
    }

    /** `tasks.forEach(task => calculateLevel(task.id))` on a fresh cache:
        afterwards exactly the task ids have a cached level, the reference
        level on an acyclic list. */
    method CalculateAllLevels()
      modifies this
      ensures levels.Keys == Ids(tasks)
      ensures LevelOrdered(tasks) ==> forall t :: t in tasks ==> levels[t.id] == Level(tasks, t.id)
    {
      levels := map[];
      visited := {};
      var i := 0;
      while i < |tasks|
        invariant 0 <= i <= |tasks|
        invariant levels.Keys <= visited && levels.Keys <= Ids(tasks)
        invariant Pending() == {}
        invariant forall j :: 0 <= j < i ==> tasks[j].id in levels
        invariant LevelOrdered(tasks) ==> LevelsCorrect()
      {
        var level := CalculateLevel(tasks[i].id);
        i := i + 1;
      }
      assert Ids(tasks) <= levels.Keys by {
        forall k | k in Ids(tasks) ensures k in levels {
          var t :| t in tasks && t.id == k;
          var j :| 0 <= j < |tasks| && tasks[j] == t;
        }
      }
    }

    /** `tasksByLevel`: one group per level that occurs, holding the tasks of
        that level in list order. */
    method GroupByLevel() returns (groups: map<nat, seq<Task>>)
      ensures groups == Groups(tasks, levels)
    {
      groups := map[];
      var i := 0;
      while i < |tasks|
        invariant 0 <= i <= |tasks|
        invariant groups == Groups(tasks[..i], levels)
      {
        var level := LevelOf(levels, tasks[i].id);
        GroupsSnoc(tasks, levels, i);
        var group := if level in groups then groups[level] else [];
        groups := groups[level := group + [tasks[i]]];
        i := i + 1;
      }
      assert tasks[..i] == tasks;
    }
  }

  // ---------------------------------------------------------------------
  // Columns and node positions

  /** `levels.get(id) || 0`. */
  function LevelOf(levels: map<int, nat>, id: int): nat
  {
    if id in levels then levels[id] else 0
  }

  /** The tasks whose level is `level`, in list order. */
  function InLevel(tasks: seq<Task>, levels: map<int, nat>, level: nat): seq<Task>
  {
    Filter(tasks, (t: Task) => LevelOf(levels, t.id) == level)
  }

  /** The grouping built task by task: each task is appended to the group
      of its level, which is created empty when first needed. */
  function Groups(tasks: seq<Task>, levels: map<int, nat>): (g: map<nat, seq<Task>>)
    ensures forall t :: t in tasks ==> LevelOf(levels, t.id) in g
    ensures forall l :: l in g ==> exists t :: t in tasks && LevelOf(levels, t.id) == l
  {
    if |tasks| == 0 then map[]
    else
      var init := tasks[..|tasks| - 1];
      var last := tasks[|tasks| - 1];
      var g := Groups(init, levels);
      var l := LevelOf(levels, last.id);
      assert forall t :: t in tasks ==> t in init || t == last;
      g[l := (if l in g then g[l] else []) + [last]]
  }

  lemma GroupsSnoc(tasks: seq<Task>, levels: map<int, nat>, i: nat)
    requires i < |tasks|
    ensures var g := Groups(tasks[..i], levels);
      var l := LevelOf(levels, tasks[i].id);
      Groups(tasks[..i + 1], levels) == g[l := (if l in g then g[l] else []) + [tasks[i]]]
  {
    assert tasks[..i + 1][..i] == tasks[..i];
  }

  /** Each group is the filter of the list by level: every task lands in
      the group of its own level and in no other, and groups keep list
      order. */
  lemma {:induction false} GroupsAreFilters(tasks: seq<Task>, levels: map<int, nat>)
    ensures forall l :: l in Groups(tasks, levels) ==> Groups(tasks, levels)[l] == InLevel(tasks, levels, l)
  {
    if |tasks| > 0 {
      var i := |tasks| - 1;
      var init := tasks[..i];
      var last := tasks[i];
      GroupsAreFilters(init, levels);
      GroupsSnoc(tasks, levels, i);
      assert tasks[..i + 1] == tasks;
      var g := Groups(init, levels);
      var lv := LevelOf(levels, last.id);
      forall l | l in Groups(tasks, levels)
        ensures Groups(tasks, levels)[l] == InLevel(tasks, levels, l)
      {
        assert InLevel(tasks, levels, l) == InLevel(init, levels, l) + (if lv == l then [last] else []);
        if l !in g {
          InLevelEmpty(init, levels, l);
        }
      }
    }
  }

  lemma {:induction false} InLevelEmpty(tasks: seq<Task>, levels: map<int, nat>, level: nat)
    requires forall t :: t in tasks ==> LevelOf(levels, t.id) != level
    ensures InLevel(tasks, levels, level) == []
  {
    if |tasks| > 0 {
      InLevelEmpty(tasks[..|tasks| - 1], levels, level);
    }
  }

  /** Every task lands in exactly one group: the one of its level. */
  lemma ExactlyOneGroup(tasks: seq<Task>, levels: map<int, nat>, t: Task, l: nat)
    requires t in tasks && l in Groups(tasks, levels)
    ensures t in Groups(tasks, levels)[l] <==> l == LevelOf(levels, t.id)
  {
    GroupsAreFilters(tasks, levels);
  }

  /** `tasksInLevel.findIndex(t => t.id === id)`, -1 when absent. */
  function IndexOfId(s: seq<Task>, id: int): (r: int)
    ensures -1 <= r < |s|
    ensures r == -1 <==> id !in Ids(s)
    ensures r >= 0 ==> s[r].id == id && forall j :: 0 <= j < r ==> s[j].id != id
  {
    if |s| == 0 then -1
    else if s[0].id == id then 0
    else
      var r := IndexOfId(s[1..], id);
      assert Ids(s) == {s[0].id} + Ids(s[1..]);
      if r == -1 then -1 else r + 1
  }

  const HorizontalSpacing: real := 200.0
  const VerticalSpacing: real := 150.0

  datatype Point = Point(x: real, y: real)

  /** The position of the node of task `id`: column by level, row by index
      within the column, each column centred on y = 0. */
  function NodePosition(groups: map<nat, seq<Task>>, levels: map<int, nat>, id: int): Point
  {
    var level := LevelOf(levels, id);
    var inLevel := if level in groups then groups[level] else [];
    var offsetY := (|inLevel| - 1) as real * VerticalSpacing / 2.0;
    Point(level as real * HorizontalSpacing, IndexOfId(inLevel, id) as real * VerticalSpacing - offsetY)
  }

  /** Two tasks with different ids never share a position: different levels
      give different columns, and within a column the rows differ. */
  lemma NodesDoNotOverlap(tasks: seq<Task>, levels: map<int, nat>, t: Task, u: Task)
    requires t in tasks && u in tasks && t.id != u.id
    ensures NodePosition(Groups(tasks, levels), levels, t.id) != NodePosition(Groups(tasks, levels), levels, u.id)
  {
    var g := Groups(tasks, levels);
    var lt := LevelOf(levels, t.id);
    var lu := LevelOf(levels, u.id);
    if lt == lu {
      ExactlyOneGroup(tasks, levels, t, lt);
      ExactlyOneGroup(tasks, levels, u, lt);
      var i := IndexOfId(g[lt], t.id);
      var j := IndexOfId(g[lt], u.id);
      assert t.id in Ids(g[lt]) && u.id in Ids(g[lt]);
      assert i != j;
    } else {
      assert lt as real * HorizontalSpacing != lu as real * HorizontalSpacing;
    }
  }

  /** A task's node sits in the column `level * 200` of its own level, in
      the row given by its place among the tasks of that level in list
      order, the column's rows being spaced 150 apart and centred on
      y = 0. */
  lemma NodeInItsColumn(tasks: seq<Task>, levels: map<int, nat>, t: Task)
    requires t in tasks
    ensures var l := LevelOf(levels, t.id);
      var column := InLevel(tasks, levels, l);
      var row := IndexOfId(column, t.id);
      && 0 <= row < |column|
      && NodePosition(Groups(tasks, levels), levels, t.id) ==
           Point(l as real * HorizontalSpacing,
                 row as real * VerticalSpacing - (|column| - 1) as real * VerticalSpacing / 2.0)
  {
    var g := Groups(tasks, levels);
    var l := LevelOf(levels, t.id);
    ExactlyOneGroup(tasks, levels, t, l);
    GroupsAreFilters(tasks, levels);
    assert t.id in Ids(g[l]);
  }

  /** The rows of a column are symmetric about y = 0. */
  lemma ColumnCentred(groups: map<nat, seq<Task>>, levels: map<int, nat>, t: Task, u: Task)
    requires LevelOf(levels, t.id) == LevelOf(levels, u.id)
    requires var l := LevelOf(levels, t.id);
      l in groups && IndexOfId(groups[l], t.id) + IndexOfId(groups[l], u.id) == |groups[l]| - 1
    ensures NodePosition(groups, levels, t.id).y + NodePosition(groups, levels, u.id).y == 0.0
  {
  }

  // ---------------------------------------------------------------------
  // Edges

  datatype Edge = Edge(id: string, source: string, target: string)

  /** The edge from precedence `precId` to task `taskId`, with id
      `e{precId}-{taskId}` and the node ids as end points. */
  function EdgeFor(precId: int, taskId: int): Edge
  {
    Edge("e" + IntString(precId) + "-" + IntString(taskId), IntString(precId), IntString(taskId))
  }

  /** The edges of one task, one per precedence, in order. */
  function TaskEdges(t: Task): (r: seq<Edge>)
    ensures |r| == |t.precedences|
    ensures forall i :: 0 <= i < |r| ==> r[i] == EdgeFor(t.precedences[i], t.id)
  {
    seq(|t.precedences|, i requires 0 <= i < |t.precedences| => EdgeFor(t.precedences[i], t.id))
  }

  /** All edges: the tasks' edges in list order. */
  function EdgesOf(tasks: seq<Task>): seq<Edge>
  {
    if |tasks| == 0 then [] else EdgesOf(tasks[..|tasks| - 1]) + TaskEdges(tasks[|tasks| - 1])
  }

  /** The number of (precedence, task) pairs. */
  function PrecedenceCount(tasks: seq<Task>): nat
  {
    if |tasks| == 0 then 0 else PrecedenceCount(tasks[..|tasks| - 1]) + |tasks[|tasks| - 1].precedences|
  }

  /** The nested `forEach` that pushes one edge per precedence. */
  method BuildEdges(tasks: seq<Task>) returns (edges: seq<Edge>)
    ensures edges == EdgesOf(tasks)
  {
    edges := [];
    var i := 0;
    while i < |tasks|
      invariant 0 <= i <= |tasks|
      invariant edges == EdgesOf(tasks[..i])
    {
      var task := tasks[i];
      var j := 0;
      while j < |task.precedences|
        invariant 0 <= j <= |task.precedences|
        invariant edges == EdgesOf(tasks[..i]) + TaskEdges(task)[..j]
      {
        TaskEdgesPrefix(task, j);
        edges := edges + [EdgeFor(task.precedences[j], task.id)];
        j := j + 1;
      }
      assert TaskEdges(task)[..j] == TaskEdges(task);
      EdgesOfPrefix(tasks, i);
      i := i + 1;
    }
    assert tasks[..i] == tasks;
  }

  lemma TaskEdgesPrefix(t: Task, j: nat)
    requires j < |t.precedences|
    ensures TaskEdges(t)[..j + 1] == TaskEdges(t)[..j] + [EdgeFor(t.precedences[j], t.id)]
  {
    var r := TaskEdges(t);
    assert r[..j + 1] == r[..j] + [r[j]];
  }

  lemma EdgesOfPrefix(tasks: seq<Task>, i: nat)
    requires i < |tasks|
    ensures EdgesOf(tasks[..i + 1]) == EdgesOf(tasks[..i]) + TaskEdges(tasks[i])
  {
    assert tasks[..i + 1][..i] == tasks[..i];
  }

  /** One edge per (precedence, task) pair: as many edges as pairs, and an
      edge exactly for each pair. */
  lemma {:induction false} EdgesArePairs(tasks: seq<Task>)
    ensures |EdgesOf(tasks)| == PrecedenceCount(tasks)
    ensures forall e :: e in EdgesOf(tasks) <==>
      exists t, p :: t in tasks && p in t.precedences && e == EdgeFor(p, t.id)
  {
    if |tasks| > 0 {
      var init := tasks[..|tasks| - 1];
      var last := tasks[|tasks| - 1];
      EdgesArePairs(init);
      forall e ensures e in EdgesOf(tasks) <==>
        exists t, p :: t in tasks && p in t.precedences && e == EdgeFor(p, t.id)
      {
        if e in TaskEdges(last) {
          var i :| 0 <= i < |TaskEdges(last)| && TaskEdges(last)[i] == e;
          assert last.precedences[i] in last.precedences;
        }
        if exists t, p :: t in tasks && p in t.precedences && e == EdgeFor(p, t.id) {
          var t, p :| t in tasks && p in t.precedences && e == EdgeFor(p, t.id);
          if t != last {
            assert t in init;
          } else {
            var i :| 0 <= i < |last.precedences| && last.precedences[i] == p;
            assert TaskEdges(last)[i] == e;
          }
        }
      }
    }
  }

  /** An edge's end points read back, through `parseInt`, as the ids it
      joins. */
  lemma EdgeEndpoints(precId: int, taskId: int)
    ensures ParseInt(EdgeFor(precId, taskId).source) == Some(precId)
    ensures ParseInt(EdgeFor(precId, taskId).target) == Some(taskId)
  {
    ParseIntString(precId);
    ParseIntString(taskId);
  }

  lemma JoinTwo(a: string, b: string, sep: char)
    ensures Join([a, b], sep) == a + [sep] + b
  {
    assert [a, b][1..] == [b];
  }

  lemma DecimalStringInjective(a: nat, b: nat)
    requires DecimalString(a) == DecimalString(b)
    ensures a == b
  {
    ParseUnsignedDecimal(a);
    ParseUnsignedDecimal(b);
  }

  /** For non-negative ids, an edge's id determines the pair it joins. */
  lemma NoMinusInDecimal(n: nat)
    ensures '-' !in DecimalString(n)
  {
    var d := DecimalString(n);
    assert forall i :: 0 <= i < |d| ==> d[i] != '-';
  }

  /** The body of the id of the edge between two non-negative ids: the two
      decimal renderings joined by a minus sign, neither holding one. */
  lemma EdgeIdBody(p: nat, t: nat)
    ensures EdgeFor(p, t).id[1..] == Join([DecimalString(p), DecimalString(t)], '-')
    ensures '-' !in DecimalString(p) && '-' !in DecimalString(t)
  {
    var a, b := DecimalString(p), DecimalString(t);
    NoMinusInDecimal(p);
    NoMinusInDecimal(t);
    assert IntString(p) == a && IntString(t) == b;
    JoinTwo(a, b, '-');
    assert EdgeFor(p, t).id == "e" + (a + ['-'] + b);
  }

  lemma EdgeIdsDistinguishPairs(p1: int, t1: int, p2: int, t2: int)
    requires p1 >= 0 && t1 >= 0 && p2 >= 0 && t2 >= 0
    requires EdgeFor(p1, t1).id == EdgeFor(p2, t2).id
    ensures p1 == p2 && t1 == t2
  {
    var a1, b1, a2, b2 := DecimalString(p1), DecimalString(t1), DecimalString(p2), DecimalString(t2);
    EdgeIdBody(p1, t1);
    EdgeIdBody(p2, t2);
    SplitJoin([a1, b1], '-');
    SplitJoin([a2, b2], '-');
    assert [a1, b1] == [a2, b2];
    DecimalStringInjective(p1, p2);
    DecimalStringInjective(t1, t2);
  }

  // ---------------------------------------------------------------------
  // Station colours

  /** The map after recording that every task of `ts` is in station `sid`. */
  function AddTasks(m: map<int, int>, ts: seq<Task>, sid: int): (r: map<int, int>)
    ensures forall k :: k in r <==> k in m || k in Ids(ts)
    ensures forall k :: k in r ==> r[k] == if k in Ids(ts) then sid else m[k]
  {
    if |ts| == 0 then m
    else
      var init := ts[..|ts| - 1];
      assert Ids(ts) == Ids(init) + {ts[|ts| - 1].id};
      AddTasks(m, init, sid)[ts[|ts| - 1].id := sid]
  }

  /** The task-to-station map; a task listed by several stations maps to the
      last of them. */
  function StationMap(stations: seq<Station>): map<int, int>
  {
    if |stations| == 0 then map[]
    else
      var s := stations[|stations| - 1];
      AddTasks(StationMap(stations[..|stations| - 1]), s.tasks, s.id)
  }

  /** `taskToStation()`: the nested `forEach` that sets one entry per
      (station, task) pair. */
  method TaskToStation(stations: seq<Station>) returns (m: map<int, int>)
    ensures m == StationMap(stations)
  {
    m := map[];
    var i := 0;
    while i < |stations|
      invariant 0 <= i <= |stations|
      invariant m == StationMap(stations[..i])
    {
      var station := stations[i];
      var j := 0;
      while j < |station.tasks|
        invariant 0 <= j <= |station.tasks|
        invariant m == AddTasks(StationMap(stations[..i]), station.tasks[..j], station.id)
      {
        assert station.tasks[..j + 1][..j] == station.tasks[..j];
        m := m[station.tasks[j].id := station.id];
        j := j + 1;
      }
      assert station.tasks[..j] == station.tasks;
      assert stations[..i + 1][..i] == stations[..i];
      i := i + 1;
    }
    assert stations[..i] == stations;
  }

  /** An id is in the map exactly when some station lists a task with it,
      and then it maps to the last such station. */
  lemma {:induction false} StationMapLast(stations: seq<Station>, k: int, i: nat)
    requires i < |stations| && k in Ids(stations[i].tasks)
    requires forall j :: i < j < |stations| ==> k !in Ids(stations[j].tasks)
    ensures k in StationMap(stations) && StationMap(stations)[k] == stations[i].id
  {
    if i < |stations| - 1 {
      StationMapLast(stations[..|stations| - 1], k, i);
    }
  }

  lemma {:induction false} StationMapDomain(stations: seq<Station>, k: int)
    ensures k in StationMap(stations) <==> exists i :: 0 <= i < |stations| && k in Ids(stations[i].tasks)
  {
    if |stations| > 0 {
      var init := stations[..|stations| - 1];
      StationMapDomain(init, k);
      if exists i :: 0 <= i < |stations| && k in Ids(stations[i].tasks) {
        var i :| 0 <= i < |stations| && k in Ids(stations[i].tasks);
        if i < |stations| - 1 {
          assert init[i] == stations[i];
        }
      }
      if exists i :: 0 <= i < |init| && k in Ids(init[i].tasks) {
        var i :| 0 <= i < |init| && k in Ids(init[i].tasks);
        assert stations[i] == init[i];
      }
    }
  }

  const DefaultColour: string := "#6366f1"

  /** Red, amber, emerald, blue, violet, pink, teal, orange. */
  const Palette: seq<string> := ["#ef4444", "#f59e0b", "#10b981", "#3b82f6", "#8b5cf6", "#ec4899", "#14b8a6", "#f97316"]

  /** JavaScript `a % b`: the remainder takes the sign of `a`. */
  function JsRemainder(a: int, b: int): (r: int)
    requires b > 0
    ensures a >= 0 ==> 0 <= r < b && r == a % b
    ensures a < 0 ==> -b < r <= 0
  {
    if a >= 0 then a % b else -((-a) % b)
  }

  /** `getNodeColor`: the default colour when the task has no station (or
      station 0, which is falsy), otherwise the palette entry at
      `(stationId - 1) % 8`; None stands for the `undefined` that a negative
      index yields. */
  function GetNodeColour(taskId: int, stationMap: map<int, int>): (c: Option<string>)
    ensures c.None? <==> (taskId in stationMap && stationMap[taskId] < 0 &&
                          JsRemainder(stationMap[taskId] - 1, |Palette|) != 0)
  {
    if taskId !in stationMap || stationMap[taskId] == 0 then Some(DefaultColour)
    else
      var i := JsRemainder(stationMap[taskId] - 1, |Palette|);
      if i >= 0 then Some(Palette[i]) else None
  }

  /** Station `n` (from 1) is coloured by the palette in turn, repeating
      every eight stations, and eight consecutive stations all differ. */
  lemma ColourCycle(taskId: int, stationMap: map<int, int>)
    requires taskId in stationMap && stationMap[taskId] >= 1
    ensures GetNodeColour(taskId, stationMap) == Some(Palette[(stationMap[taskId] - 1) % 8])
    ensures GetNodeColour(taskId, stationMap) != Some(DefaultColour)
    ensures GetNodeColour(taskId, stationMap[taskId := stationMap[taskId] + 8]) == GetNodeColour(taskId, stationMap)
  {
  }

  lemma PaletteDistinct(i: nat, j: nat)
    requires i < j < |Palette|
    ensures Palette[i] != Palette[j]
  {
  }

  /** Two nodes of placed tasks share a colour exactly when their station
      ids are equal modulo eight. */
  lemma SameColourSameResidue(a: int, b: int, stationMap: map<int, int>)
    requires a in stationMap && stationMap[a] >= 1
    requires b in stationMap && stationMap[b] >= 1
    ensures GetNodeColour(a, stationMap) == GetNodeColour(b, stationMap) <==>
      (stationMap[a] - 1) % 8 == (stationMap[b] - 1) % 8
  {
    var i, j := (stationMap[a] - 1) % 8, (stationMap[b] - 1) % 8;
    if i < j {
      PaletteDistinct(i, j);
    } else if j < i {
      PaletteDistinct(j, i);
    }
  }

  /** The node of a task placed in the station at position `i`, numbered
      `i + 1` as closed stations are, gets the palette entry `i % 8`,
      provided no later station lists the same id. */
  lemma ColourOfPlacedTask(stations: seq<Station>, i: nat, t: Task)
    requires i < |stations| && stations[i].id == i + 1 && t in stations[i].tasks
    requires forall j :: i < j < |stations| ==> t.id !in Ids(stations[j].tasks)
    ensures GetNodeColour(t.id, StationMap(stations)) == Some(Palette[i % 8])
  {
    assert t.id in Ids(stations[i].tasks);
    StationMapLast(stations, t.id, i);
    PlacedColour(t.id, StationMap(stations), i);
  }

  lemma PlacedColour(taskId: int, stationMap: map<int, int>, i: nat)
    requires taskId in stationMap && stationMap[taskId] == i + 1
    ensures GetNodeColour(taskId, stationMap) == Some(Palette[i % 8])
  {
  }
}
