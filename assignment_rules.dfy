/**
 * The rule-selection step: the user switches the two tie-break rules on and
 * off, and the enabled ones are listed in the order they were switched on.
 * The list is what the form hands on when the step completes; the
 * balancing run itself always applies both rules in a fixed order and does
 * not read it.
 */
module AssignmentRules {
  import LineBalancing
  import BalancingRun

  datatype Rule = MostFollowingTasks | LongestTime

  /** The rules offered, in the order the form lists them. */
  const RuleOptions: seq<Rule> := [MostFollowingTasks, LongestTime]

  /** Clicking a rule's checkbox: an enabled rule is taken out, the others
      keeping their order; a disabled one is added at the end. */
  function ToggleRule(enabled: seq<Rule>, rule: Rule): (r: seq<Rule>)
    ensures rule in r <==> rule !in enabled
    ensures forall x :: x != rule ==> (x in r <==> x in enabled)
    ensures rule !in enabled ==> |r| == |enabled| + 1 && r[..|enabled|] == enabled && r[|enabled|] == rule
  {
    if rule in enabled then LineBalancing.Filter(enabled, (x: Rule) => x != rule)
    else enabled + [rule]
  }

  /** Switching a rule off leaves the rules before and after it where they
      were. */
  lemma ToggleOffKeepsOrder(before: seq<Rule>, rule: Rule, after: seq<Rule>)
    requires rule !in before && rule !in after
    ensures ToggleRule(before + [rule] + after, rule) == before + after
  {
    var keep := (x: Rule) => x != rule;
    var s := before + [rule] + after;
    assert rule in s;
    assert ToggleRule(s, rule) == LineBalancing.Filter(s, keep);
    LineBalancing.FilterAppend(before + [rule], after, keep);
    LineBalancing.FilterAppend(before, [rule], keep);
    LineBalancing.FilterAll(before, keep);
    LineBalancing.FilterAll(after, keep);
    assert LineBalancing.Filter([rule], keep) == [] by {
      assert [rule][..0] == [];
    }
    assert LineBalancing.Filter(before + [rule], keep) == before;
  }

  /** Switching a rule on and then off again restores the list. */
  lemma ToggleTwice(enabled: seq<Rule>, rule: Rule)
    requires rule !in enabled
    ensures ToggleRule(ToggleRule(enabled, rule), rule) == enabled
  {
    ToggleOffKeepsOrder(enabled, rule, []);
    assert enabled + [rule] + [] == enabled + [rule];
    assert enabled + [] == enabled;
  }

  lemma {:induction false} FilterKeepsDistinct<T(!new)>(s: seq<T>, keep: T -> bool)
    requires BalancingRun.Distinct(s)
    ensures BalancingRun.Distinct(LineBalancing.Filter(s, keep))
  {
    if |s| > 0 {
      var init := s[..|s| - 1];
      assert BalancingRun.Distinct(init);
      FilterKeepsDistinct(init, keep);
      assert forall i :: 0 <= i < |init| ==> init[i] == s[i] != s[|s| - 1];
      assert s[|s| - 1] !in init;
    }
  }

  /** The list never holds a rule twice. */
  lemma ToggleKeepsDistinct(enabled: seq<Rule>, rule: Rule)
    requires BalancingRun.Distinct(enabled)
    ensures BalancingRun.Distinct(ToggleRule(enabled, rule))
  {
    if rule in enabled {
      FilterKeepsDistinct(enabled, (x: Rule) => x != rule);
    }
  }

  /** So it never holds more rules than there are. */
  lemma DistinctBounded(enabled: seq<Rule>)
    requires BalancingRun.Distinct(enabled)
    ensures |enabled| <= |RuleOptions|
  {
    BalancingRun.ElementsCard(enabled);
    assert BalancingRun.Elements(enabled) <= {MostFollowingTasks, LongestTime} by {
      forall x | x in BalancingRun.Elements(enabled)
        ensures x in {MostFollowingTasks, LongestTime}
      {
        assert x.MostFollowingTasks? || x.LongestTime?;
      }
    }
    BalancingRun.SubsetCard(BalancingRun.Elements(enabled), {MostFollowingTasks, LongestTime});
  }

  /** `indexOf`: the first position of `x`, or -1. */
  function IndexOf<T(==)>(s: seq<T>, x: T): (i: int)
    ensures -1 <= i < |s|
    ensures i == -1 <==> x !in s
    ensures i >= 0 ==> s[i] == x && x !in s[..i]
  {
    if |s| == 0 then -1
    else if s[0] == x then 0
    else
      var j := IndexOf(s[1..], x);
      assert j >= 0 ==> s[1..][..j] == s[1..j + 1];
      if j == -1 then -1 else j + 1
  }

  /** The order badge on a rule's card: absent for a disabled rule,
      otherwise its position in the enabled list counted from 1. */
  function DisplayedPosition(enabled: seq<Rule>, rule: Rule): (n: nat)
    requires rule in enabled
    ensures 1 <= n <= |enabled| && enabled[n - 1] == rule && rule !in enabled[..n - 1]
  {
    IndexOf(enabled, rule) + 1
  }

  /** A rule just switched on is shown last, after every rule already on. */
  lemma ToggledOnShownLast(enabled: seq<Rule>, rule: Rule)
    requires rule !in enabled
    ensures DisplayedPosition(ToggleRule(enabled, rule), rule) == |enabled| + 1
  {
    var r := ToggleRule(enabled, rule);
    assert r[..|enabled|] == enabled;
    assert rule !in r[..|enabled|];
  }

  /** Two enabled rules never share a badge number. */
  lemma PositionsDistinct(enabled: seq<Rule>, a: Rule, b: Rule)
    requires a in enabled && b in enabled && a != b
    ensures DisplayedPosition(enabled, a) != DisplayedPosition(enabled, b)
  {
  }

  /** The "order of application" panel appears with two rules or more. */
  predicate ShowsOrderPanel(enabled: seq<Rule>)
  {
    |enabled| > 1
  }

  /** The warning that every tie will be broken at random. */
  predicate ShowsRandomWarning(enabled: seq<Rule>)
  {
    |enabled| == 0
  }

  /** With the list kept free of repeats, the order panel appears exactly
      when both rules are on. */
  lemma OrderPanelIffBothRules(enabled: seq<Rule>)
    requires BalancingRun.Distinct(enabled)
    ensures ShowsOrderPanel(enabled) <==> MostFollowingTasks in enabled && LongestTime in enabled
  {
    if MostFollowingTasks in enabled && LongestTime in enabled {
      var i :| 0 <= i < |enabled| && enabled[i] == MostFollowingTasks;
      var j :| 0 <= j < |enabled| && enabled[j] == LongestTime;
      assert i != j;
    }
    if |enabled| > 1 {
      assert enabled[0] != enabled[1];
      assert enabled[0] in enabled && enabled[1] in enabled;
    }
  }

  /** Clicking a rule brings up the random-tie warning exactly when that
      rule was the only one on. */
  lemma RandomWarningAfterToggle(enabled: seq<Rule>, rule: Rule)
    requires BalancingRun.Distinct(enabled)
    ensures ShowsRandomWarning(ToggleRule(enabled, rule)) <==> enabled == [rule]
  {
    var r := ToggleRule(enabled, rule);
    if |r| > 0 {
      assert r[0] in r;
    }
    if |r| == 0 {
      assert rule in enabled;
      forall x | x in enabled
        ensures x == rule
      {
        if x != rule {
          assert false;
        }
      }
      BalancingRun.ElementsCard(enabled);
      BalancingRun.SubsetCard(BalancingRun.Elements(enabled), {rule});
      assert enabled[0] in enabled;
    }
  }
}
