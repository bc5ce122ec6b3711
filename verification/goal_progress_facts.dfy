/**
 * Properties of the progress engine that relate several calls, or relate its
 * numbers to an independent description: the reward is paid at most once over
 * any run of updates, percentages never go backwards, the rollup of finished and
 * unstarted children, and the rounding behaviour at the edges.
 */
module GoalProgressFacts {
  import opened Wrappers
  import opened Numeric
  import opened Tables
  import opened Entities
  import opened GoalProgress

  // ---- the update keeps the schema's guarantees ----

  /** The rows keep their keys: ids, foreign keys and reward amounts are as before. */
  ghost predicate SameKeys(s: Store, s': Store) {
    && |s'.children| == |s.children|
    && (forall i :: 0 <= i < |s.children| ==> s'.children[i].id == s.children[i].id && s'.children[i].userId == s.children[i].userId)
    && |s'.assignments| == |s.assignments|
    && (forall i :: 0 <= i < |s.assignments| ==>
          s'.assignments[i].goalId == s.assignments[i].goalId && s'.assignments[i].childId == s.assignments[i].childId
          && s'.assignments[i].isDeleted == s.assignments[i].isDeleted)
    && |s'.goals| == |s.goals|
    && (forall i :: 0 <= i < |s.goals| ==> s'.goals[i].id == s.goals[i].id && s'.goals[i].rewardCoins == s.goals[i].rewardCoins)
  }

  /** Keys that survive also keep every assignment linked to its goal. */
  lemma SameKeysKeepLinks(s: Store, s': Store)
    requires GoalsLinked(s) && SameKeys(s, s')
    ensures GoalsLinked(s')
  {
    forall i | 0 <= i < |s'.assignments|
      ensures HasGoal(s'.goals, s'.assignments[i].goalId)
    {
      assert HasGoal(s.goals, s.assignments[i].goalId);
      var j :| 0 <= j < |s.goals| && s.goals[j].id == s.assignments[i].goalId;
      assert s'.goals[j].id == s'.assignments[i].goalId;
    }
  }

  /** The writes of a successful update touch no key. */
  lemma CommitKeepsKeys(s: Store, goalId: Id, t: Target, minutes: int)
    requires t.child < |s.children| && t.assignment < |s.assignments| && t.goal < |s.goals|
    requires minutes > 0 && 0 < s.goals[t.goal].durationMin
    ensures SameKeys(s, Commit(s, goalId, t, minutes).store)
  {
    var o := Commit(s, goalId, t, minutes);
    var rep := o.result.value;
    var a, g, c := s.assignments[t.assignment], s.goals[t.goal], s.children[t.child];
    assert o.store.assignments == s.assignments[t.assignment := a.(percentage := rep.childProgressPercent)];
    assert o.store.goals == s.goals[t.goal := g.(progress := rep.averageProgress, status := rep.goalStatus)];
    assert o.store.children == s.children
        || o.store.children == s.children[t.child := c.(coins := c.coins + g.rewardCoins, completedTask := c.completedTask + 1)];
  }

  /** An update writes only percentages, rollups, statuses and balances: every key survives. */
  lemma UpdateProgressKeepsKeys(s: Store, goalId: Id, userId: Id, minutes: int)
    requires GoalsLinked(s)
    ensures SameKeys(s, UpdateProgress(s, goalId, userId, minutes).store)
    ensures GoalsLinked(UpdateProgress(s, goalId, userId, minutes).store)
  {
    var o := UpdateProgress(s, goalId, userId, minutes);
    if o.result.Ok? {
      CommitKeepsKeys(s, goalId, Locate(s, goalId, userId).value, minutes);
    }
    SameKeysKeepLinks(s, o.store);
  }

  /** Stores with the same keys locate the same rows. */
  lemma LocateStable(s: Store, s': Store, goalId: Id, userId: Id)
    requires GoalsLinked(s) && GoalsLinked(s') && SameKeys(s, s')
    ensures Locate(s', goalId, userId) == Locate(s, goalId, userId)
  {
    FirstIndexSame(s.children, (c: ChildProfile) => c.userId == userId, s'.children, (c: ChildProfile) => c.userId == userId);
    var ci := ChildByUser(s, userId);
    if ci.Some? {
      var cid := s.children[ci.value].id;
      FirstIndexSame(s.assignments, (a: Assignment) => a.goalId == goalId && a.childId == cid,
                     s'.assignments, (a: Assignment) => a.goalId == goalId && a.childId == cid);
      FirstIndexSame(s.goals, (g: Goal) => g.id == goalId, s'.goals, (g: Goal) => g.id == goalId);
    }
  }

  /** An update keeps every stored percentage within [0, 100]. */
  lemma UpdateProgressKeepsPercentages(s: Store, goalId: Id, userId: Id, minutes: int)
    requires GoalsLinked(s) && PercentagesInRange(s.assignments)
    ensures PercentagesInRange(UpdateProgress(s, goalId, userId, minutes).store.assignments)
  {
  }

  /** An update never adds or re-keys an assignment, so the compound key stays unique. */
  lemma UpdateProgressKeepsUniqueness(s: Store, goalId: Id, userId: Id, minutes: int)
    requires GoalsLinked(s) && AssignmentsUnique(s.assignments)
    ensures AssignmentsUnique(UpdateProgress(s, goalId, userId, minutes).store.assignments)
  {
    UpdateProgressKeepsKeys(s, goalId, userId, minutes);
  }

  // ---- the reward is paid at most once ----

  /** Successive `updateProgress` calls by one child on one goal, failures included. */
  function Replay(s: Store, goalId: Id, userId: Id, reports: seq<int>): (s': Store)
    requires GoalsLinked(s)
    ensures GoalsLinked(s')
    decreases |reports|
  {
    if |reports| == 0 then s
    else
      UpdateProgressKeepsKeys(s, goalId, userId, reports[0]);
      Replay(UpdateProgress(s, goalId, userId, reports[0]).store, goalId, userId, reports[1..])
  }

  /** The child is as before, or has been rewarded for the goal exactly once. */
  ghost predicate RewardedAtMostOnce(c: ChildProfile, c': ChildProfile, reward: int) {
    || c' == c
    || c' == c.(coins := c.coins + reward, completedTask := c.completedTask + 1)
  }

  /** One update moves the child's balance at most once, and only on the way to 100%. */
  lemma UpdateProgressRewardStep(s: Store, goalId: Id, userId: Id, minutes: int)
    requires GoalsLinked(s) && Locate(s, goalId, userId).Some?
    ensures
      var t := Locate(s, goalId, userId).value;
      var s' := UpdateProgress(s, goalId, userId, minutes).store;
      && RewardedAtMostOnce(s.children[t.child], s'.children[t.child], s.goals[t.goal].rewardCoins)
      && (s'.children[t.child] != s.children[t.child] ==> s'.assignments[t.assignment].percentage >= 100)
      && (s.assignments[t.assignment].percentage >= 100 ==>
            s'.children[t.child] == s.children[t.child] && s'.assignments[t.assignment].percentage >= 100)
  {
  }

  lemma SameKeysTransitive(s1: Store, s2: Store, s3: Store)
    requires SameKeys(s1, s2) && SameKeys(s2, s3)
    ensures SameKeys(s1, s3)
  {
  }

  /**
   * However many progress reports a child sends for one goal, in whatever sizes,
   * the child's balance and task count move at most once, by the goal's reward;
   * and not at all when the child had already reached 100%.
   */
  lemma {:induction false} ReplayRewardsAtMostOnce(s: Store, goalId: Id, userId: Id, reports: seq<int>)
    requires GoalsLinked(s) && Locate(s, goalId, userId).Some?
    ensures SameKeys(s, Replay(s, goalId, userId, reports))
    ensures
      var t := Locate(s, goalId, userId).value;
      var s' := Replay(s, goalId, userId, reports);
      && RewardedAtMostOnce(s.children[t.child], s'.children[t.child], s.goals[t.goal].rewardCoins)
      && (s.assignments[t.assignment].percentage >= 100 ==> s'.children[t.child] == s.children[t.child])
    decreases |reports|
  {
    if |reports| > 0 {
      var t := Locate(s, goalId, userId).value;
      var mid := UpdateProgress(s, goalId, userId, reports[0]).store;
      UpdateProgressKeepsKeys(s, goalId, userId, reports[0]);
      UpdateProgressRewardStep(s, goalId, userId, reports[0]);
      LocateStable(s, mid, goalId, userId);
      ReplayRewardsAtMostOnce(mid, goalId, userId, reports[1..]);
      SameKeysTransitive(s, mid, Replay(mid, goalId, userId, reports[1..]));
    }
  }

  // ---- percentages never go backwards ----

  lemma RoundDivAtLeast(n: int, d: int, k: int)
    requires d > 0 && 2 * d * k <= 2 * n + d
    ensures RoundDiv(n, d) >= k
  {
    var r := RoundDiv(n, d);
    if r < k {
      MulMonotone(2 * d, r + 1, k);
    }
  }

  /** One minute more than the rounded minutes of `p`% rounds back to at least `p`%. */
  lemma NextMinuteReachesPercent(pd: int, percentage: int, durationMin: int, cur: int)
    requires durationMin > 0 && pd == percentage * durationMin
    requires 2 * pd + 100 < 200 * cur + 200
    ensures RoundDiv((cur + 1) * 100, durationMin) >= percentage
  {
    RoundDivAtLeast((cur + 1) * 100, durationMin, percentage);
  }

  /** Logging minutes never lowers a stored percentage in [0, 100]. */
  lemma AdvanceNeverLowers(percentage: int, durationMin: int, minutes: int)
    requires durationMin > 0 && minutes > 0 && 0 <= percentage <= 100
    ensures AdvanceBy(percentage, durationMin, minutes).percent >= percentage
  {
    var cur := MinutesOf(percentage, durationMin);
    var adv := AdvanceBy(percentage, durationMin, minutes);
    if adv.minutesLogged == durationMin {
      assert adv.percent == 100;
    } else {
      var pd := percentage * durationMin;
      assert cur == RoundDiv(pd, 100);
      NextMinuteReachesPercent(pd, percentage, durationMin, cur);
      RoundDivMonotone((cur + 1) * 100, adv.minutesLogged * 100, durationMin);
    }
  }

  // ---- the rollup ----

  /** A mean of percentages is a percentage. */
  lemma RoundedMeanInRange(xs: seq<int>)
    requires forall i :: 0 <= i < |xs| ==> 0 <= xs[i] <= 100
    ensures 0 <= RoundedMean(xs) <= 100
  {
    if |xs| > 0 {
      SumBounds(xs, 0, 100);
      RoundDivBounds(Sum(xs), |xs|, 100);
    }
  }

  /** When every child is either finished or unstarted, the sum is 100 per finished child. */
  lemma {:induction false} SumOfFinishedAndUnstarted(xs: seq<int>)
    requires forall i :: 0 <= i < |xs| ==> xs[i] == 0 || xs[i] == 100
    ensures Sum(xs) == 100 * CountAtLeast(xs, 100)
  {
    if |xs| > 0 {
      SumOfFinishedAndUnstarted(xs[1..]);
    }
  }

  /**
   * With k of n children at 100% and the rest at 0%, the rollup is round(100·k / n),
   * and the goal counts as complete exactly when k = n.
   */
  lemma RollupOfFinishedAndUnstarted(xs: seq<int>)
    requires |xs| > 0
    requires forall i :: 0 <= i < |xs| ==> xs[i] == 0 || xs[i] == 100
    ensures RoundedMean(xs) == RoundDiv(100 * CountAtLeast(xs, 100), |xs|)
    ensures CountAtLeast(xs, 100) == |xs| <==> forall i :: 0 <= i < |xs| ==> xs[i] == 100
  {
    SumOfFinishedAndUnstarted(xs);
    CountAllIff(xs, 100);
  }

  // ---- rounding at the edges ----

  /**
   * On a goal of more than 200·m minutes, logging m minutes from 0% stores 0%:
   * the minutes are credited in the response but lost from the stored percentage.
   */
  lemma SmallReportIsLost(durationMin: int, minutes: int)
    requires minutes > 0 && durationMin > 200 * minutes
    ensures AdvanceBy(0, durationMin, minutes).minutesLogged == minutes
    ensures AdvanceBy(0, durationMin, minutes).percent == 0
  {
    RoundDivExact(0, 100);
    RoundDivUnique(minutes * 100, durationMin, 0);
  }

  /**
   * A child starting from 0% completes, and is rewarded, as soon as the logged
   * minutes round to 100%: that is, once they reach 99.5% of the duration, not
   * only at the full duration.
   */
  lemma {:induction false} CompletionBeforeFullDuration(durationMin: int, minutes: int)
    requires 0 < minutes < durationMin
    ensures AdvanceBy(0, durationMin, minutes).minutesLogged == minutes
    ensures JustCompleted(0, AdvanceBy(0, durationMin, minutes).percent) <==> 200 * minutes + durationMin >= 200 * durationMin
    ensures 200 * minutes + durationMin >= 200 * durationMin ==> AdvanceBy(0, durationMin, minutes).percent == 100
  {
    var p := PercentOf(minutes, durationMin);
    if 200 * minutes + durationMin >= 200 * durationMin {
      RoundDivAtLeast(minutes * 100, durationMin, 100);
      PercentOfAtMostHundred(minutes, durationMin);
    }
    if p >= 100 {
      MulMonotone(2 * durationMin, 100, p);
    }
  }

  /** For instance, on a 200-minute goal 199 minutes already complete it. */
  lemma CompletionAtNinetyNineAndAHalf()
    ensures AdvanceBy(0, 200, 199) == Advance(199, 100)
  {
    CompletionBeforeFullDuration(200, 199);
  }
}
