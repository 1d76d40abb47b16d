# Assembly-line balancing: a verified model

The application takes three inputs from the user:

- a project (daily production time in minutes and required daily output);
- a list of tasks (name, duration in seconds, and the ids of the tasks that must come first);
- a choice of tie-break rules.

It then balances the line with a greedy heuristic:

- The cycle time is the production time in seconds divided by the output.
- The theoretical station count is the ceiling of total work over the cycle time.
- Stations are filled one task at a time, always from the tasks whose precedences are already placed and that still fit.
- Ties are broken by "most following tasks", then "longest time", then at random.
- A station is closed when nothing else fits.
- The run gives up after fifty consecutive rounds without an assignment, and lists why each remaining task is stuck.
- A completed run publishes the stations, the assignment log and the line efficiency, graded in three tiers.

The project also models four other parts of the application:

- the precedence diagram (levels, columns, node positions, edges, colours by station);
- the task form (precedence parsing, ids, removal, the example set);
- the rule-selection list;
- the four-step page that ties them together.

Modules:

- `Text` (`text.dfy`): JavaScript `split`, `trim`, `parseInt` and string length in UTF-16 code units, and decimal rendering.
- `LineBalancing` (`line_balancing.dfy`): the entities and the pure queries of the store. These are cycle time, eligibility, the dependent count, the tie-break chain, the diagnosis and the classification.
- `BalancingRun` (`balancing_run.dfy`): the invariant of the assignment loop, and what a completed or stalled run guarantees.
- `Store` (`store.dfy`): the store as a class. `AssignAll` is the assignment loop, on its own local state; `Balance` adds the results record; `CalculateBalancing` publishes what they produced.
- `PrecedenceDiagram` (`precedence_diagram.dfy`): the memoised level recursion (a class over the level cache and visited set), grouping, layout, edges and colours.
- `TaskList` (`task_list.dfy`): the task form's edits, as functions on values.
- `AssignmentRules` (`assignment_rules.dfy`): the ordered rule toggle.
- `Wizard` (`wizard.dfy`): the page's step machine, as a class over the store.

Durations are exact `real` numbers. `Math.random()` is a parameter: `random(k)` is the value the k-th call would return, and one value is used per tie that survives both rules.

## Model

| member | source | states |
|---|---|---|
| LineBalancing.Filter | src/store/lineBalancingStore.ts:90-95 | `filter`: the result holds exactly the elements that pass the test, and is no longer than the input |
| LineBalancing.FilterAppend | src/components/TaskListForm.tsx:60 | filtering a concatenation concatenates the filtered parts, so filtering keeps the order of the survivors |
| LineBalancing.FilterAll | src/components/TaskListForm.tsx:60 | filtering with a test every element passes returns the list unchanged |
| LineBalancing.Ceil | src/store/lineBalancingStore.ts:76 | `Math.ceil`: the result is the least integer at or above its argument |
| LineBalancing.CycleTime | src/store/lineBalancingStore.ts:73 | the cycle time is positive, and cycle time × daily output = production minutes × 60 |
| LineBalancing.TheoreticalStations | src/store/lineBalancingStore.ts:76 | the count is the least n with total work ≤ n × cycle time, i.e. the ceiling of work over cycle time |
| LineBalancing.AvailableTasks | src/store/lineBalancingStore.ts:89-96 | a task is eligible exactly when it is unassigned, every precedence is assigned, and it fits the remaining time |
| LineBalancing.CountFollowing | src/store/lineBalancingStore.ts:98-100 | the count is at most the number of tasks, and it is 0 exactly when no task lists the id as a precedence |
| LineBalancing.CountFollowingIsDependentCount | src/store/lineBalancingStore.ts:98-100 | the following count equals the number of list positions whose task names the id as a precedence |
| LineBalancing.MaxFollowing | src/store/lineBalancingStore.ts:109 | the largest following count among the candidates is attained by one of them |
| LineBalancing.MaxTime | src/store/lineBalancingStore.ts:117 | the longest duration among the candidates is attained by one of them |
| LineBalancing.ByMostFollowing | src/store/lineBalancingStore.ts:110 | the candidates kept are exactly the eligible tasks with the maximal following count; there is at least one |
| LineBalancing.ByLongestTime | src/store/lineBalancingStore.ts:117-118 | the candidates kept are exactly those with the maximal duration; there is at least one |
| LineBalancing.RandomIndex | src/store/lineBalancingStore.ts:125 | `Math.floor(r * n)` with r in [0,1) is a valid index |
| LineBalancing.SelectTask | src/store/lineBalancingStore.ts:102-127 | the chosen task is one of the eligible tasks |
| LineBalancing.SelectTaskJustified | src/store/lineBalancingStore.ts:102-127 | No eligible task has more following tasks than the chosen one, and none with as many is longer. Each justification is reported exactly in its own case: "only task available" iff one task is eligible; "most following" iff several are but one alone has the maximal count, which it then has strictly; "longest time" iff the count ties but one of the tied tasks alone is longest; "random" iff ties survive both rules, and the choice is then among the tied tasks |
| LineBalancing.OnlyAvailableChosen | src/store/lineBalancingStore.ts:104-106 | with exactly one eligible task, that task is chosen with the "only task available" justification |
| LineBalancing.FollowingWinner | src/store/lineBalancingStore.ts:108-114 | a winner of the first rule is eligible, has the maximal following count, and every task tied with it survives the rule |
| LineBalancing.TimeWinner | src/store/lineBalancingStore.ts:116-122 | a winner of the second rule is a candidate, has the maximal duration, and every task tied with it survives |
| LineBalancing.RandomTieReachesEveryCandidate | src/store/lineBalancingStore.ts:124-126 | every task tied after both rules is chosen for some random value |
| LineBalancing.RandomIndexOf | src/store/lineBalancingStore.ts:125 | the random value k/n selects index k |
| LineBalancing.SelectionIndependentOfRoll | src/store/lineBalancingStore.ts:102-122 | when either rule decides, the random value plays no part in the choice |
| LineBalancing.InvalidPrecedences | src/store/lineBalancingStore.ts:146-148 | the ids reported are exactly the task's precedences that name no task of the list |
| LineBalancing.UnmetPrecedences | src/store/lineBalancingStore.ts:149-151 | the ids reported are exactly the task's precedences that exist but are not yet assigned |
| LineBalancing.Unassigned | src/store/lineBalancingStore.ts:142 | exactly the tasks whose id is not assigned |
| LineBalancing.Diagnosis | src/store/lineBalancingStore.ts:145-158 | the record is for the task; its invalid ids are exactly its precedences naming no task; its unmet ids are exactly those naming a task not yet assigned; it is too big exactly when longer than the cycle |
| LineBalancing.DiagnosisClear | src/store/lineBalancingStore.ts:145-158 | a record names no reason exactly when the task fits the cycle and every precedence names an assigned task of the list |
| LineBalancing.Diagnose | src/store/lineBalancingStore.ts:142-159 | one record per unassigned task, in list order, each with its invalid and unmet precedences and whether it exceeds the cycle |
| LineBalancing.StalledDiagnosisExplains | src/store/lineBalancingStore.ts:141-159 | when no task fits even an empty station, every record shows at least one reason |
| LineBalancing.Classify | src/store/lineBalancingStore.ts:227-234 | below 60 is unsatisfactory, 60 to 90 inclusive is satisfactory, above 90 is outstanding, each as an if-and-only-if |
| LineBalancing.ClassifyMonotone | src/store/lineBalancingStore.ts:227-234 | a higher efficiency never gets a lower grade |
| LineBalancing.Efficiency | src/store/lineBalancingStore.ts:225 | efficiency is at most 100 exactly when the work fits in the stations' capacity, and exactly 100 when it fills it |
| LineBalancing.EfficiencyBounds | src/store/lineBalancingStore.ts:224-225 | when the stations' capacity covers the work, efficiency is between 0 and 100 and the theoretical count does not exceed the actual one |
| BalancingRun.StationPlacements | src/store/lineBalancingStore.ts:202-215 | one placement per task of a station |
| BalancingRun.StationPlacementsAt | src/store/lineBalancingStore.ts:202-215 | the k-th placement of a station records its k-th task and the cycle time minus the time of its first k + 1 tasks, i.e. the remaining time right after that task was added |
| BalancingRun.InitialRun | src/store/lineBalancingStore.ts:79-87 | the empty run (no stations, station 1 open at full capacity, nothing assigned) satisfies the loop invariant |
| BalancingRun.AssignKeepsInvariant | src/store/lineBalancingStore.ts:200-215 | assigning an eligible task keeps the invariant. The station's total and remaining time still sum to the cycle and remaining stays ≥ 0. One log record is appended with the station id, task data and remaining time. The assignment order still respects precedences and has no repeated id |
| BalancingRun.CloseKeepsInvariant | src/store/lineBalancingStore.ts:184-193 | closing the open station keeps the invariant: only a non-empty station is pushed, and the new one gets id `stations.length + 1` and full capacity |
| BalancingRun.FinishRun | src/store/lineBalancingStore.ts:218-221 | pushing the last non-empty station leaves closed stations numbered 1, 2, 3, … with no gaps, none empty, none overbooked |
| BalancingRun.SumTimesAppend | src/store/lineBalancingStore.ts:70 | the total work of two lists put together is the sum of their totals |
| BalancingRun.SumNonNegative | src/store/lineBalancingStore.ts:70 | with no negative durations the total work is not negative |
| BalancingRun.TimeWithinSum | src/store/lineBalancingStore.ts:70 | with no negative durations no task is longer than the total |
| BalancingRun.SumTimesPermutation | src/store/lineBalancingStore.ts:70 | the total work does not depend on the order of the tasks |
| BalancingRun.FlattenWithinCapacity | src/store/lineBalancingStore.ts:224-225 | the work placed in n closed stations is at most n × cycle time |
| BalancingRun.CompletedOrderIsPermutation | src/store/lineBalancingStore.ts:133 | an assignment order with distinct ids drawn from the list and as many ids as tasks is a permutation of the list |
| BalancingRun.CompletedRun | src/store/lineBalancingStore.ts:133-225 | when the loop ends, the stations hold every task exactly once, in precedence order, numbered from 1 with no gaps, none empty or overbooked, with one log record per placement, and total work ≤ stations × cycle |
| BalancingRun.StallLeavesUnassigned | src/store/lineBalancingStore.ts:141-142 | while fewer ids are assigned than there are tasks, some task with distinct id is unassigned |
| BalancingRun.StalledRun | src/store/lineBalancingStore.ts:136-182 | when the run gives up, every record names a task of the list with at least one reason; with distinct ids there is at least one record; and the list was not one of the always-schedulable lists |
| BalancingRun.BalancedReferencesResolve | src/store/lineBalancingStore.ts:89-133 | in a completed run every precedence names a task of the list |
| BalancingRun.UnresolvableNeverBalances | src/store/lineBalancingStore.ts:89-133 | a list with a precedence naming no task has no completed run |
| BalancingRun.OversizedNeverBalances | src/store/lineBalancingStore.ts:89-96 | with no negative durations, a list holding a task longer than the cycle has no completed run |
| BalancingRun.GreedyAssign | src/store/lineBalancingStore.ts:200-215 | appending a placement chosen by the tie-break chain, with its logged remaining time, to a greedy history gives a greedy history |
| BalancingRun.PlaceKeepsGreedy | src/store/lineBalancingStore.ts:200-215 | placing the chain's pick in the open station keeps the history greedy and uses one more random value exactly when the pick was random |
| BalancingRun.GreedyClose | src/store/lineBalancingStore.ts:184-193 | closing the open station when nothing fits keeps "every closed station was closed only when nothing fitted" |
| BalancingRun.CompletedGreedy | src/store/lineBalancingStore.ts:133-221 | when the loop ends, the stations and log are greedy: every placement is the chain's pick and every station was closed only when full |
| BalancingRun.StallExplained | src/store/lineBalancingStore.ts:141-159 | a greedy run that gave up reports only tasks of the list, each with a reason; the report is non-empty for distinct ids; and the list was not one of the always-schedulable lists |
| BalancingRun.StalledReportsDangling | src/store/lineBalancingStore.ts:141-159 | when a run gives up, a precedence naming no task is listed among that task's invalid precedences |
| BalancingRun.StalledReportsTooBig | src/store/lineBalancingStore.ts:141-159 | when a run gives up, a task longer than the cycle is reported as too big |
| BalancingRun.StallNamesCauses | src/store/lineBalancingStore.ts:141-159 | the report of a stalled greedy run names every dangling precedence and every task longer than the cycle |
| BalancingRun.StationsCoverWork | src/store/lineBalancingStore.ts:224-225 | a balanced line has more than k stations whenever the work exceeds k cycles |
| BalancingRun.OneStationWhenWorkFits | src/store/lineBalancingStore.ts:133-221 | on a schedulable list whose whole work fits in one cycle, a greedy balanced run has exactly one station |
| BalancingRun.IdsCard | src/store/lineBalancingStore.ts:133 | with distinct ids, the number of ids equals the number of tasks, so the loop guard counts tasks |
| BalancingRun.NeverStalls | src/store/lineBalancingStore.ts:133-141 | on a list with increasing ids, precedences naming earlier tasks and every task fitting the cycle, an empty station always has an eligible task while tasks remain |
| Store.LineBalancingStore.constructor | src/store/lineBalancingStore.ts:54-59 | the store starts with no configuration, no tasks, no stations, no log and no results |
| Store.LineBalancingStore.SetProjectConfig | src/store/lineBalancingStore.ts:61 | sets the configuration and nothing else |
| Store.LineBalancingStore.SetTasks | src/store/lineBalancingStore.ts:63 | sets the task list and nothing else |
| Store.LineBalancingStore.Reset | src/store/lineBalancingStore.ts:252-258 | every field returns to its initial empty or null value |
| Store.ResultsOf | src/store/lineBalancingStore.ts:223-247 | when the work fits the stations' capacity the theoretical count is at most the actual one and efficiency at most 100; efficiency is exactly 100 when the work fills the capacity |
| Store.AssignAll | src/store/lineBalancingStore.ts:78-221 | The assignment loop completes with a balanced line built greedily. The line covers every task once in precedence order, numbers its stations from 1 without gaps, overbooks none, logs one record per placement, makes every placement the chain's pick, and closes each station only when nothing fits. Otherwise the loop gives up after fifty idle rounds. The stations placed so far are then valid and greedy, no unplaced task fits even an empty station, and the problems are exactly the diagnosis of the unplaced tasks |
| Store.Balance | src/store/lineBalancingStore.ts:70-247 | the run and its results: a stall is a greedy stall whose problems name tasks of the list with a reason (non-empty for distinct ids) and publishes no results; a schedulable list always completes; completion gives a greedy balanced line and results computed from it, with efficiency ≤ 100 and theoretical ≤ actual stations |
| Store.LineBalancingStore.CalculateBalancing | src/store/lineBalancingStore.ts:65-250 | The run refuses without a configuration or tasks; a refused or stalled run publishes nothing. Reported problems name tasks of the list, each with a reason, and are non-empty for distinct ids. A schedulable list always succeeds. A stall is the greedy stall of the stored list, so its report is the diagnosis of the unplaced tasks. Success publishes a greedy balanced line: stations covering every task once in precedence order, ids from 1 with no gaps, none overbooked, one log record per placement, each placement the chain's pick, each station closed only when full. Results are computed from it, with efficiency ≤ 100 and theoretical ≤ actual stations |
| PrecedenceDiagram.FindTask | src/components/PrecedenceDiagram.tsx:69 | `find`: none exactly when no task has the id; otherwise the first task with it |
| PrecedenceDiagram.MaxLevel | src/components/PrecedenceDiagram.tsx:77-79 | the largest level among the precedences bounds each of them and is attained by one |
| PrecedenceDiagram.LevelStructure | src/components/PrecedenceDiagram.tsx:72-82 | on an acyclic list a task without precedences has level 0; a task with precedences is one level above its deepest precedence and strictly above each |
| PrecedenceDiagram.LevelLayout.constructor | src/components/PrecedenceDiagram.tsx:61-62 | the cache and the visited set start empty |
| PrecedenceDiagram.LevelLayout.CalculateLevel | src/components/PrecedenceDiagram.tsx:64-83 | A cached level is returned and nothing changes. An id still on the recursion path gives 0, and so does an id with no task. A task with no precedences gets 0, one with precedences gets at least 1, and each computed level is cached and never changed. On an acyclic list every cached level and the result equal the reference level |
| PrecedenceDiagram.LevelLayout.MaxPrecedenceLevel | src/components/PrecedenceDiagram.tsx:77-79 | the level cache is only extended and the recursion path is left as it was; on a list whose precedences name smaller non-negative ids the result is the reference maximum level of the task's precedences |
| PrecedenceDiagram.LevelLayout.CalculateAllLevels | src/components/PrecedenceDiagram.tsx:61-86 | after the pass every task's id has a cached level, and on an acyclic list each is its reference level |
| PrecedenceDiagram.LevelLayout.GroupByLevel | src/components/PrecedenceDiagram.tsx:89-96 | the loop builds exactly the grouping `Groups` |
| PrecedenceDiagram.Groups | src/components/PrecedenceDiagram.tsx:89-96 | every task's level has a group, and every group's level is the level of some task |
| PrecedenceDiagram.GroupsAreFilters | src/components/PrecedenceDiagram.tsx:89-96 | each group is the list of tasks of that level, in list order |
| PrecedenceDiagram.ExactlyOneGroup | src/components/PrecedenceDiagram.tsx:89-96 | a task is in a group exactly when the group is for its level |
| PrecedenceDiagram.IndexOfId | src/components/PrecedenceDiagram.tsx:102 | `findIndex`: -1 exactly when absent, otherwise the first index with the id |
| PrecedenceDiagram.NodesDoNotOverlap | src/components/PrecedenceDiagram.tsx:99-127 | two tasks with different ids get different node positions |
| PrecedenceDiagram.NodeInItsColumn | src/components/PrecedenceDiagram.tsx:99-127 | a node sits at x = level × 200 and y = row × 150 − (column size − 1) × 150 / 2, where the column is the tasks of its level in list order and the row is its index there |
| PrecedenceDiagram.ColumnCentred | src/components/PrecedenceDiagram.tsx:106-126 | the rows of a column are symmetric about y = 0 |
| PrecedenceDiagram.TaskEdges | src/components/PrecedenceDiagram.tsx:145-158 | one edge per precedence of a task, in order, from the precedence to the task |
| PrecedenceDiagram.BuildEdges | src/components/PrecedenceDiagram.tsx:143-159 | the nested loops build exactly the edge list `EdgesOf` |
| PrecedenceDiagram.EdgesArePairs | src/components/PrecedenceDiagram.tsx:143-159 | there are as many edges as (precedence, task) pairs, and an edge is present exactly when it joins such a pair |
| PrecedenceDiagram.EdgeEndpoints | src/components/PrecedenceDiagram.tsx:147-149 | an edge's source and target read back through `parseInt` as the precedence and task ids |
| PrecedenceDiagram.EdgeIdsDistinguishPairs | src/components/PrecedenceDiagram.tsx:147 | for non-negative ids, the edge id `e{prec}-{task}` determines the pair |
| PrecedenceDiagram.AddTasks | src/components/PrecedenceDiagram.tsx:29-31 | every task of a station maps to that station; other entries are kept |
| PrecedenceDiagram.TaskToStation | src/components/PrecedenceDiagram.tsx:25-35 | the nested loops build exactly the map `StationMap` |
| PrecedenceDiagram.StationMapLast | src/components/PrecedenceDiagram.tsx:28-32 | a task maps to the last station that lists it |
| PrecedenceDiagram.StationMapDomain | src/components/PrecedenceDiagram.tsx:28-32 | an id is mapped exactly when some station lists a task with it |
| PrecedenceDiagram.JsRemainder | src/components/PrecedenceDiagram.tsx:52 | JavaScript `%`: the Euclidean remainder for a non-negative dividend, a non-positive one otherwise |
| PrecedenceDiagram.GetNodeColour | src/components/PrecedenceDiagram.tsx:38-53 | the colour is undefined exactly for a negative station id whose index is negative; an absent or falsy station gives the default |
| PrecedenceDiagram.ColourCycle | src/components/PrecedenceDiagram.tsx:38-53 | station n ≥ 1 gets palette entry (n − 1) mod 8, never the default, and station n + 8 gets the same colour |
| PrecedenceDiagram.SameColourSameResidue | src/components/PrecedenceDiagram.tsx:38-53 | two tasks on stations n, m ≥ 1 get the same colour exactly when n − 1 and m − 1 agree modulo 8 |
| PrecedenceDiagram.ColourOfPlacedTask | src/components/PrecedenceDiagram.tsx:25-53 | a task placed in the i-th station, numbered i + 1 as closed stations are, and in no later one, is coloured with palette entry i mod 8 |
| TaskList.FieldValueRendered | src/components/TaskListForm.tsx:44 | a field holding the decimal text of an integer reads back as that integer |
| TaskList.KeepBelow | src/components/TaskListForm.tsx:45 | the values kept are exactly the numbers below `nextId`, in order |
| TaskList.ParsePrecedences | src/components/TaskListForm.tsx:42-45 | the precedences are exactly the comma-separated fields that `parseInt` reads, after trimming, as a number below `nextId` |
| TaskList.KeepBelowSingle | src/components/TaskListForm.tsx:45 | a single value is kept exactly when it is a number below `nextId` |
| TaskList.KeepBelowAppend | src/components/TaskListForm.tsx:45 | filtering a concatenation concatenates the filtered parts, so the kept ids stay in the order typed |
| TaskList.ParsePrecedencesAppend | src/components/TaskListForm.tsx:42-45 | a field, a comma and more text give that field's precedences followed by those of the rest |
| TaskList.ParsePrecedencesRoundTrip | src/components/TaskListForm.tsx:42-45 | typing ids below `nextId` separated by commas gives back exactly those ids, in order |
| TaskList.EmptyFieldNoPrecedences | src/components/TaskListForm.tsx:42-45 | an empty field gives no precedences |
| TaskList.Submit | src/components/TaskListForm.tsx:14-57 | rejected values leave the form unchanged; accepted ones append one task at the end, with id `nextId` and the parsed precedences, and advance `nextId` by one |
| TaskList.SubmitKeepsWellFormed | src/components/TaskListForm.tsx:41-57 | adding a task keeps ids strictly increasing, positive and below `nextId`, every precedence below its task's id, and names and times within the schema |
| TaskList.RemoveTask | src/components/TaskListForm.tsx:59-61 | the tasks kept are exactly those with a different id; `nextId` is unchanged |
| TaskList.RemoveKeepsOrder | src/components/TaskListForm.tsx:59-61 | removal distributes over concatenation and drops a single task exactly when its id matches, so the survivors keep their order |
| TaskList.RemoveAbsent | src/components/TaskListForm.tsx:59-61 | removing an id no task has changes nothing |
| TaskList.RemoveKeepsWellFormed | src/components/TaskListForm.tsx:59-61 | removal keeps the form well formed |
| TaskList.LoadExampleTasks | src/components/TaskListForm.tsx:63-76 | the example has eight tasks with ids 1 to 8 and sets `nextId` to 9 |
| TaskList.ExampleTaskFacts | src/components/TaskListForm.tsx:64-73 | each example task has id i + 1, precedences between 1 and its own id, and a name and time the schema accepts |
| TaskList.ExampleWellFormed | src/components/TaskListForm.tsx:63-76 | loading the example gives a well-formed form |
| TaskList.ExampleClosed | src/components/TaskListForm.tsx:64-73 | every precedence of the example names an earlier task of the set |
| TaskList.ExampleTotal | src/components/TaskListForm.tsx:64-73 | the example's total work is 270 seconds |
| TaskList.ExampleSchedulable | src/components/TaskListForm.tsx:64-73 | with a cycle time of at least 50 seconds the example always balances |
| TaskList.ExampleOneStation | src/components/TaskListForm.tsx:64-73 | balancing the example greedily with a cycle time of at least its 270 seconds of work gives exactly one station |
| TaskList.ExampleNeedsTwoStations | src/components/TaskListForm.tsx:64-73 | any balanced line for the example with a shorter cycle time has at least two stations |
| TaskList.HandleComplete | src/components/TaskListForm.tsx:78-82 | an empty list is refused; otherwise the list is handed over unchanged |
| TaskList.WellFormedDistinct | src/components/TaskListForm.tsx:47-55 | the form never holds two tasks with the same id |
| TaskList.WellFormedLevelOrdered | src/components/TaskListForm.tsx:42-55 | the form's lists have no precedence cycle, so the diagram's levels on them are longest-path depths |
| TaskList.WellFormedSchedulable | src/components/TaskListForm.tsx:42-55 | a form list whose precedences all name listed tasks, each task fitting the cycle, always balances |
| TaskList.RemovalLeavesDanglingPrecedence | src/components/TaskListForm.tsx:59-61 | removing task 1 from the example leaves task 2 naming it |
| TaskList.RemovalBlocksBalancing | src/components/TaskListForm.tsx:59-61 | the list so obtained has no completed run |
| AssignmentRules.ToggleRule | src/components/AssignmentRulesForm.tsx:44-52 | the rule is present afterwards exactly when it was absent, other rules are unaffected, and an absent rule is appended at the end |
| AssignmentRules.ToggleOffKeepsOrder | src/components/AssignmentRulesForm.tsx:46-47 | switching a rule off leaves the rules before and after it in their order |
| AssignmentRules.ToggleTwice | src/components/AssignmentRulesForm.tsx:44-52 | switching an absent rule on and off restores the list |
| AssignmentRules.ToggleKeepsDistinct | src/components/AssignmentRulesForm.tsx:44-52 | the list never holds a rule twice |
| AssignmentRules.DistinctBounded | src/components/AssignmentRulesForm.tsx:23-36 | a list without repeats holds at most the two rules offered |
| AssignmentRules.IndexOf | src/components/AssignmentRulesForm.tsx:93 | `indexOf`: -1 exactly when absent, otherwise the first position |
| AssignmentRules.DisplayedPosition | src/components/AssignmentRulesForm.tsx:93-119 | an enabled rule's badge is its first position plus one |
| AssignmentRules.ToggledOnShownLast | src/components/AssignmentRulesForm.tsx:49-117 | a rule just switched on is numbered after every rule already on |
| AssignmentRules.PositionsDistinct | src/components/AssignmentRulesForm.tsx:117 | two enabled rules never share a badge number |
| AssignmentRules.OrderPanelIffBothRules | src/components/AssignmentRulesForm.tsx:133-155 | on a list without repeats, the order panel shows exactly when both rules are enabled |
| AssignmentRules.RandomWarningAfterToggle | src/components/AssignmentRulesForm.tsx:157-165 | clicking a rule brings up the random-tie warning exactly when that rule was the only one enabled |
| Wizard.Next | src/pages/Index.tsx:17-44 | the results screen is reached exactly by a successful run, or kept by a failed one; a failed run stays where it was; no other handler leads to the results |
| Wizard.OfferedMovesOneStep | src/pages/Index.tsx:17-88 | each handler a screen offers moves one step forward or back, or stays after a failed run; the results screen goes back to the start |
| Wizard.ResultsGuarded | src/pages/Index.tsx:25-88 | the results screen is entered only from the rules screen by a successful run, and offers only reset |
| Wizard.ResultsNeedSuccess | src/pages/Index.tsx:17-88 | along any sequence of offered actions, reaching the results requires a successful run |
| Wizard.BackTwiceFromRules | src/pages/Index.tsx:38-44 | back from rules goes to tasks, and back again to the first screen |
| Wizard.IndexPage.constructor | src/pages/Index.tsx:13 | the page starts on the configuration screen |
| Wizard.IndexPage.HandleConfigComplete | src/pages/Index.tsx:17-19 | moves to the task screen |
| Wizard.IndexPage.HandleTasksComplete | src/pages/Index.tsx:21-23 | moves to the rules screen |
| Wizard.IndexPage.HandleRulesComplete | src/pages/Index.tsx:25-31 | runs the balancing; moves to the results only on success, otherwise stays and the store keeps its previous outcome; a schedulable list always gets through; the results screen only ever shows a completed run |
| Wizard.IndexPage.HandleReset | src/pages/Index.tsx:33-36 | from any screen, empties the store and returns to the configuration screen |
| Wizard.IndexPage.HandleBackFromTasks | src/pages/Index.tsx:38-40 | moves to the configuration screen |
| Wizard.IndexPage.HandleBackFromRules | src/pages/Index.tsx:42-44 | moves to the task screen |
| Text.Utf16Length | src/components/TaskListForm.tsx:15 | zod's length counts UTF-16 code units: between the number of characters and twice that |
| Text.Utf16LengthBmp | src/components/TaskListForm.tsx:15 | the code-unit count equals the character count exactly when every character is in the Basic Multilingual Plane |
| Text.Utf16LengthAstral | src/components/TaskListForm.tsx:15 | the code-unit count is twice the character count exactly when every character is outside it |
| Text.TrimKeepsSlice | src/components/TaskListForm.tsx:44 | `trim` keeps one contiguous slice of the text, starting where the leading white space ends |
| Text.TrimEndsNotWhitespace | src/components/TaskListForm.tsx:44 | the trimmed text neither starts nor ends with white space |
| Text.TrimDropsWhitespace | src/components/TaskListForm.tsx:44 | everything `trim` drops on either side is white space |
| Text.ParseInt | src/components/TaskListForm.tsx:44 | `parseInt` yields a number only when the text holds a digit, so text with no digit at all gives NaN |
| Text.IntString | src/components/PrecedenceDiagram.tsx:109 | `String(i)` is non-empty, made of digits and a minus sign, and starts with the sign exactly for a negative number |
| Text.Split | src/components/TaskListForm.tsx:43 | `split`: at least one field, none containing the separator |
| Text.SplitJoin | src/components/TaskListForm.tsx:43 | splitting undoes joining when no part holds the separator |
| Text.ParseIntString | src/components/TaskListForm.tsx:44 | `parseInt(String(i)) === i` for every integer |

## Left out

- Rendering is not modelled: JSX, styles, ReactFlow nodes and edges beyond their ids, positions and colours, charts, icons and message texts. The stall alert is modelled as the list of diagnosis records it prints.
- `src/components/ResultsView.tsx`, `src/components/ProjectConfigForm.tsx` and `src/components/ProgressStepper.tsx` are not part of this model. They only display or forward data. The configuration form's lower bounds appear as the precondition `ValidConfig`.
- The zustand and React plumbing is replaced by a class with fields and methods. This covers `create`, `set`, `get`, `useState`, `useEffect`, `useCallback` and re-rendering.
- JavaScript numbers are modelled as exact reals and unbounded integers. Floating-point rounding in `remainingTime -= task.time`, in the efficiency and in `toFixed` is not modelled.
- `Math.random()` is the parameter `random`, a function from the call number to a value in [0,1). Which values a browser would produce is not modelled.
- Store.LineBalancingStore.CalculateBalancing: requires a positive production time and output when a configuration is present. The configuration form enforces both. With zero or negative values the source divides by zero or produces a negative cycle time; that path is not modelled.
- Store.AssignAll: the loop runs while fewer ids are assigned than there are tasks, exactly as written. With duplicate ids the run stalls and the diagnosis may list nothing. The task form never produces duplicate ids, so the contract promises a non-empty diagnosis only for distinct ids.
- Store.LineBalancingStore.CalculateBalancing: inherits the same weaker diagnosis promise from `AssignAll` for lists with duplicate ids.
- The rule list chosen in the rules form is never read by the balancing run, which applies "most following" and then "longest time" in that fixed order. The model keeps that fixed chain. `assignmentRulesConfig`, `setAssignmentRulesConfig` and the `SecondaryRule` type are used by `src/components/AssignmentRulesForm.tsx:8, 39, 55` but are not defined in `src/store/lineBalancingStore.ts`. Storing the list (`handleContinue`) is therefore not modelled, and the initial list is any list.
- The button guards are not modelled: "load example" is disabled while the list is non-empty, and "continue" is disabled while it is empty. Each handler is modelled on its own, unguarded.
- The task form's own state is lost when the page returns to the task step, because the component is mounted again. The model treats the form state as a value passed in.
- PrecedenceDiagram.LevelLayout.CalculateLevel: proved to match the reference longest-path level only on lists whose precedences name smaller, non-negative ids, which is what the task form builds. On cyclic input its contract gives termination, the cycle guard (0 for an id on the recursion path), caching and the 0 / ≥ 1 facts, but no closed-form level.
- PrecedenceDiagram.LevelLayout.MaxPrecedenceLevel: on cyclic input promises only that the cache is extended and the recursion path kept, not that the result is the maximum of what the recursive calls returned.
- PrecedenceDiagram.EdgeIdsDistinguishPairs: proved only for non-negative ids. The precedence field accepts negative numbers such as `-3`, and distinctness of the edge ids for those is not proved.
