/**
 * The page that walks the user through the four steps: project data, task
 * list, tie-break rules, results. Each screen offers its own buttons; the
 * only guarded move is into the results, which happens only when the
 * balancing run succeeds.
 */
module Wizard {
  import opened Text
  import opened LineBalancing
  import opened BalancingRun
  import opened Store

  datatype Step = Config | Tasks | Rules | Results

  /** What the user can do: finish a step, go back a step, or start over.
      Finishing the rules step carries the outcome of the balancing run. */
  datatype Event =
    | ConfigComplete
    | TasksComplete
    | RulesComplete(success: bool)
    | ResetPressed
    | BackFromTasks
    | BackFromRules

  /** The screen each handler moves to. */
  function Next(step: Step, e: Event): (r: Step)
    ensures r == Results <==> e.RulesComplete? && (e.success || step == Results)
    ensures e.RulesComplete? && !e.success ==> r == step
    ensures !e.RulesComplete? ==> r != Results
  {
    match e
    case ConfigComplete => Tasks
    case TasksComplete => Rules
    case RulesComplete(success) => if success then Results else step
    case ResetPressed => Config
    case BackFromTasks => Config
    case BackFromRules => Tasks
  }

  /** The handlers each screen wires to its buttons. */
  predicate Offered(step: Step, e: Event)
  {
    match step
    case Config => e == ConfigComplete
    case Tasks => e == TasksComplete || e == BackFromTasks
    case Rules => e.RulesComplete? || e == BackFromRules
    case Results => e == ResetPressed
  }

  /** Position of a step in the progress bar. */
  function Rank(step: Step): nat
  {
    match step
    case Config => 0
    case Tasks => 1
    case Rules => 2
    case Results => 3
  }

  /** From the screen that offers it, every handler moves one step forward
      or back, stays put after a failed run, or (only on the results screen)
      starts over. */
  lemma OfferedMovesOneStep(step: Step, e: Event)
    requires Offered(step, e)
    ensures step != Results ==>
      Rank(Next(step, e)) == Rank(step) + 1 || Rank(Next(step, e)) + 1 == Rank(step) || Next(step, e) == step
    ensures Next(step, e) == step <==> e == RulesComplete(false)
    ensures step == Results ==> Next(step, e) == Config
  {
  }

  /** The results screen is entered only by a successful run from the rules
      screen, and left only by starting over. */
  lemma ResultsGuarded(step: Step, e: Event)
    requires Offered(step, e)
    ensures step != Results && Next(step, e) == Results ==> step == Rules && e == RulesComplete(true)
    ensures step == Results ==> e == ResetPressed
  {
  }

  /** The screens visited along a sequence of button presses, each offered
      by the screen it was pressed on. */
  predicate OfferedTrace(step: Step, events: seq<Event>)
    decreases |events|
  {
    |events| == 0 || (Offered(step, events[0]) && OfferedTrace(Next(step, events[0]), events[1..]))
  }

  function Replay(step: Step, events: seq<Event>): Step
    decreases |events|
  {
    if |events| == 0 then step else Replay(Next(step, events[0]), events[1..])
  }

  /** However the user gets there from the first screen, the results screen
      is reached only through a successful balancing run. */
  lemma {:induction false} ResultsNeedSuccess(step: Step, events: seq<Event>)
    requires OfferedTrace(step, events)
    requires step != Results && Replay(step, events) == Results
    ensures RulesComplete(true) in events
    decreases |events|
  {
    var e := events[0];
    if Next(step, e) == Results {
      ResultsGuarded(step, e);
    } else {
      ResultsNeedSuccess(Next(step, e), events[1..]);
    }
  }

  /** Pressing "back" on the rules screen and then on the task screen
      returns to the first screen. */
  lemma {:induction false} BackTwiceFromRules()
    ensures OfferedTrace(Rules, [BackFromRules, BackFromTasks])
    ensures Replay(Rules, [BackFromRules, BackFromTasks]) == Config
  {
    assert [BackFromRules, BackFromTasks][1..] == [BackFromTasks];
    assert [BackFromTasks][1..] == [];
  }

  class IndexPage {
    var currentStep: Step
    const store: LineBalancingStore

    /** The results screen shows exactly when the store holds results, and
        those come from a completed run over the stored tasks. */
    ghost predicate Consistent()
      reads this, store
    {
      && (currentStep == Results <==> store.results.Some?)
      && (currentStep == Results ==>
            && store.projectConfig.Some? && ValidConfig(store.projectConfig.value)
            && Balanced(store.tasks, CycleTime(store.projectConfig.value), store.stations, store.assignmentSteps))
    }

    /** The page opens on the first screen, over a store with nothing
        calculated. */
    constructor (s: LineBalancingStore)
      requires s.results == None
      ensures currentStep == Config && store == s
      ensures Consistent()
    {
      currentStep := Config;
      store := s;
    }

    method HandleConfigComplete()
      modifies this
      ensures currentStep == Next(old(currentStep), ConfigComplete)
      ensures old(Consistent()) && Offered(old(currentStep), ConfigComplete) ==> Consistent()
    {
      currentStep := Tasks;
    }

    method HandleTasksComplete()
      modifies this
      ensures currentStep == Next(old(currentStep), TasksComplete)
      ensures old(Consistent()) && Offered(old(currentStep), TasksComplete) ==> Consistent()
    {
      currentStep := Rules;
    }

    /** Runs the balancing; moves to the results only when it succeeds. */
    method HandleRulesComplete(random: nat -> real)
      requires forall k :: 0.0 <= random(k) < 1.0
      requires store.projectConfig.Some? ==> ValidConfig(store.projectConfig.value)
      modifies this, store
      ensures store.projectConfig == old(store.projectConfig) && store.tasks == old(store.tasks)
      ensures exists success :: currentStep == Next(old(currentStep), RulesComplete(success))
      ensures currentStep != old(currentStep) ==> currentStep == Results
      // Staying put means the run failed and the store kept what it had.
      ensures old(currentStep) != Results && currentStep == old(currentStep) ==>
        && store.results == old(store.results)
        && store.stations == old(store.stations)
        && store.assignmentSteps == old(store.assignmentSteps)
      // A task list the form builds always gets through.
      ensures (store.projectConfig.Some? && |store.tasks| > 0 &&
               Schedulable(store.tasks, CycleTime(store.projectConfig.value))) ==> currentStep == Results
      ensures old(Consistent()) && Offered(old(currentStep), RulesComplete(true)) ==> Consistent()
    {
      var success, problems := store.CalculateBalancing(random);
      if success {
        currentStep := Results;
      }
      assert currentStep == Next(old(currentStep), RulesComplete(success));
    }

    /** Starting over: the store is emptied and the first screen shown,
        whatever screen the page was on. */
    method HandleReset()
      modifies this, store
      ensures currentStep == Config && currentStep == Next(old(currentStep), ResetPressed)
      ensures store.projectConfig == None && store.tasks == [] && store.assignmentSteps == []
      ensures store.stations == [] && store.results == None
      ensures Consistent()
    {
      store.Reset();
      currentStep := Config;
    }

    method HandleBackFromTasks()
      modifies this
      ensures currentStep == Next(old(currentStep), BackFromTasks)
      ensures old(Consistent()) && Offered(old(currentStep), BackFromTasks) ==> Consistent()
    {
      currentStep := Config;
    }

    method HandleBackFromRules()
      modifies this
      ensures currentStep == Next(old(currentStep), BackFromRules)
      ensures old(Consistent()) && Offered(old(currentStep), BackFromRules) ==> Consistent()
    {
      currentStep := Tasks;
    }
  }
}
