/**
 * The progress engine: a child logs minutes against a goal, the assignment's
 * percentage advances (clamped at the goal's duration), the goal-level rollup is
 * recomputed, and the child is rewarded on the call that first reaches 100%.
 * The whole update is one transaction: a failure leaves the store as it was.
 */
module GoalProgress {
  import opened Wrappers
  import opened Numeric
  import opened Tables
  import opened Entities

  /** The minutes a stored percentage stands for: `Math.round(p / 100 * d)`. */
  function MinutesOf(percentage: int, durationMin: int): (m: int)
    requires durationMin > 0
    // m is percentage/100 * durationMin rounded half up
    ensures 200 * m <= 2 * percentage * durationMin + 100 < 200 * m + 200
    ensures 0 <= percentage <= 100 ==> 0 <= m <= durationMin
    ensures percentage >= 100 ==> m >= durationMin
  {
    MinutesOfFacts(percentage, durationMin);
    RoundDiv(percentage * durationMin, 100)
  }

  /** The percentage a number of minutes stands for: `Math.round(m / d * 100)`. */
  function PercentOf(minutes: int, durationMin: int): (p: int)
    requires durationMin > 0
    // p is minutes/durationMin * 100 rounded half up
    ensures 2 * durationMin * p <= 200 * minutes + durationMin < 2 * durationMin * p + 2 * durationMin
    ensures 0 <= minutes <= durationMin ==> 0 <= p <= 100
    ensures minutes == durationMin ==> p == 100
  {
    PercentOfFacts(minutes, durationMin);
    RoundDiv(minutes * 100, durationMin)
  }

  lemma MinutesOfFacts(percentage: int, durationMin: int)
    requires durationMin > 0
    ensures 0 <= percentage <= 100 ==> 0 <= RoundDiv(percentage * durationMin, 100) <= durationMin
    ensures percentage >= 100 ==> RoundDiv(percentage * durationMin, 100) >= durationMin
  {
    if 0 <= percentage <= 100 {
      RoundDivBounds(percentage * durationMin, 100, durationMin);
    }
    if percentage >= 100 {
      RoundDivMonotone(100 * durationMin, percentage * durationMin, 100);
      RoundDivExact(durationMin, 100);
    }
  }

  lemma MinutesOfNonNegative(percentage: int, durationMin: int)
    requires durationMin > 0
    ensures 0 <= percentage ==> 0 <= MinutesOf(percentage, durationMin)
  {
    if 0 <= percentage {
      RoundDivMonotone(0, percentage * durationMin, 100);
      RoundDivExact(0, 100);
    }
  }

  lemma PercentOfFacts(minutes: int, durationMin: int)
    requires durationMin > 0
    ensures 0 <= minutes <= durationMin ==> 0 <= RoundDiv(minutes * 100, durationMin) <= 100
    ensures minutes == durationMin ==> RoundDiv(minutes * 100, durationMin) == 100
  {
    if 0 <= minutes <= durationMin {
      RoundDivBounds(minutes * 100, durationMin, 100);
    }
    if minutes == durationMin {
      RoundDivExact(100, durationMin);
    }
  }

  lemma PercentOfAtMostHundred(minutes: int, durationMin: int)
    requires durationMin > 0 && minutes <= durationMin
    ensures PercentOf(minutes, durationMin) <= 100
    ensures 0 <= minutes ==> 0 <= PercentOf(minutes, durationMin)
  {
    RoundDivMonotone(minutes * 100, durationMin * 100, durationMin);
    RoundDivExact(100, durationMin);
  }

  /** Where one update leaves an assignment: minutes credited and the stored percentage. */
  datatype Advance = Advance(minutesLogged: int, percent: int)

  /**
   * Converts the stored percentage to minutes, adds the reported minutes, clamps
   * at the duration and converts back.
   */
  function AdvanceBy(percentage: int, durationMin: int, minutes: int): (r: Advance)
    requires durationMin > 0 && minutes > 0
    ensures r.minutesLogged == Min(MinutesOf(percentage, durationMin) + minutes, durationMin)
    ensures r.percent == PercentOf(r.minutesLogged, durationMin)
    ensures r.minutesLogged <= durationMin
    ensures r.percent <= 100
    ensures 0 <= percentage ==> 0 < r.minutesLogged && 0 <= r.percent
    ensures percentage >= 100 ==> r == Advance(durationMin, 100)
  {
    var current := MinutesOf(percentage, durationMin);
    var logged := Min(current + minutes, durationMin);
    MinutesOfNonNegative(percentage, durationMin);
    PercentOfAtMostHundred(logged, durationMin);
    Advance(logged, PercentOf(logged, durationMin))
  }

  /** Percentages of the goal's non-deleted assignments, in table order. */
  function LivePercentages(asg: seq<Assignment>, goalId: Id): (r: seq<int>)
    ensures |r| <= |asg|
  {
    if |asg| == 0 then []
    else
      (if asg[0].goalId == goalId && !asg[0].isDeleted then [asg[0].percentage] else [])
      + LivePercentages(asg[1..], goalId)
  }

  /** `Math.round(sum / count) || 0`: the rounded mean, and 0 for no assignments. */
  function RoundedMean(xs: seq<int>): int
  {
    if |xs| == 0 then 0 else RoundDiv(Sum(xs), |xs|)
  }

  /** The rows an update works on: the child, its assignment to the goal, the goal. */
  datatype Target = Target(child: nat, assignment: nat, goal: nat)

  /**
   * The child profile of `userId`, its assignment to `goalId`, and that goal,
   * when all exist.
   */
  function Locate(s: Store, goalId: Id, userId: Id): (r: Option<Target>)
    requires GoalsLinked(s)
    ensures r.Some? ==> r.value.child < |s.children| && r.value.assignment < |s.assignments| && r.value.goal < |s.goals|
    ensures r.Some? ==> s.children[r.value.child].userId == userId
    ensures r.Some? ==> s.assignments[r.value.assignment].goalId == goalId
    ensures r.Some? ==> s.assignments[r.value.assignment].childId == s.children[r.value.child].id
    ensures r.Some? ==> s.goals[r.value.goal].id == goalId
    ensures r.None? <==> ChildByUser(s, userId).None? || AssignmentOf(s, goalId, s.children[ChildByUser(s, userId).value].id).None?
  {
    var ci := ChildByUser(s, userId);
    if ci.None? then None
    else
      var ai := AssignmentOf(s, goalId, s.children[ci.value].id);
      if ai.None? then None
      else
        var gi := GoalById(s, goalId);
        assert HasGoal(s.goals, s.assignments[ai.value].goalId);
        Some(Target(ci.value, ai.value, gi.value))
  }

  /** What `updateProgress` returns. */
  datatype ProgressReport = ProgressReport(
    childProgressPercent: int,
    childMinutesLogged: int,
    childCompleted: bool,
    goalStatus: GoalStatus,
    rewardGiven: int,
    averageProgress: int,
    completedCount: nat,
    totalChildren: nat)

  /** The child reaches 100% on this call having been below it before. */
  predicate JustCompleted(before: int, after: int) {
    after >= 100 && !(before >= 100)
  }

  /**
   * The writes of a successful `updateProgress` on the located rows `t`: the
   * assignment advances, the reward is paid on the crossing call, and the goal's
   * rollup is recomputed after the write.
   */
  function Commit(s: Store, goalId: Id, t: Target, minutes: int): (o: Step<ProgressReport>)
    requires t.child < |s.children| && t.assignment < |s.assignments| && t.goal < |s.goals|
    requires minutes > 0 && 0 < s.goals[t.goal].durationMin
    ensures o.result.Ok?
    ensures
      var g := s.goals[t.goal];
      var a := s.assignments[t.assignment];
      var rep := o.result.value;
      && rep.childMinutesLogged == AdvanceBy(a.percentage, g.durationMin, minutes).minutesLogged
      && rep.childProgressPercent == AdvanceBy(a.percentage, g.durationMin, minutes).percent
      && rep.childMinutesLogged <= g.durationMin
      && rep.childProgressPercent <= 100
      && (0 <= a.percentage ==> 0 <= rep.childProgressPercent)
      && (a.percentage >= 100 ==> rep.childProgressPercent == 100)
      && rep.childCompleted == (rep.childProgressPercent >= 100)
      && o.store.assignments == s.assignments[t.assignment := a.(percentage := rep.childProgressPercent)]
    ensures
      var g := s.goals[t.goal];
      var c := s.children[t.child];
      var a := s.assignments[t.assignment];
      var rep := o.result.value;
      if JustCompleted(a.percentage, rep.childProgressPercent) then
        && rep.rewardGiven == g.rewardCoins
        && o.store.children == s.children[t.child := c.(coins := c.coins + g.rewardCoins, completedTask := c.completedTask + 1)]
      else
        rep.rewardGiven == 0 && o.store.children == s.children
    ensures
      var g := s.goals[t.goal];
      var rep := o.result.value;
      var live := LivePercentages(o.store.assignments, goalId);
      && rep.totalChildren == |live|
      && rep.completedCount == CountAtLeast(live, 100)
      && rep.averageProgress == RoundedMean(live)
      && (rep.goalStatus == Completed <==> (g.status == Completed || forall i :: 0 <= i < |live| ==> live[i] >= 100))
      && (rep.goalStatus != Completed ==> rep.goalStatus == g.status)
      && o.store.goals == s.goals[t.goal := g.(progress := rep.averageProgress, status := rep.goalStatus)]
    ensures o.store.(assignments := s.assignments, goals := s.goals, children := s.children) == s
  {
    var g := s.goals[t.goal];
    var a := s.assignments[t.assignment];
    var adv := AdvanceBy(a.percentage, g.durationMin, minutes);
    var childCompleted := adv.percent >= 100;
    var justCompleted := JustCompleted(a.percentage, adv.percent);
    var assignments' := s.assignments[t.assignment := a.(percentage := adv.percent)];
    var live := LivePercentages(assignments', goalId);
    var totalChildren := |live|;
    var completedCount := CountAtLeast(live, 100);
    var averageProgress := RoundedMean(live);
    var globalCompleted := completedCount == totalChildren;
    var status := if globalCompleted then Completed else g.status;
    var goals' := s.goals[t.goal := g.(progress := averageProgress, status := status)];
    var c := s.children[t.child];
    var children' :=
      if justCompleted then s.children[t.child := c.(coins := c.coins + g.rewardCoins, completedTask := c.completedTask + 1)]
      else s.children;
    CountAllIff(live, 100);
    Step(
      s.(assignments := assignments', goals := goals', children := children'),
      Ok(ProgressReport(adv.percent, adv.minutesLogged, childCompleted, status,
                        if justCompleted then g.rewardCoins else 0,
                        averageProgress, completedCount, totalChildren)))
  }

  /** `updateProgress(goalId, userId, minutesCompleted)`. */
  function UpdateProgress(s: Store, goalId: Id, userId: Id, minutes: int): (o: Step<ProgressReport>)
    requires GoalsLinked(s)
    // the guards, in the order the service checks them; a failure changes nothing
    ensures o.result.Err? ==> o.store == s
    ensures ChildByUser(s, userId).None? ==> o.result == Err(AppError(404, "Child profile not found"))
    ensures ChildByUser(s, userId).Some? && Locate(s, goalId, userId).None? ==>
      o.result == Err(AppError(404, "Goal assignment not found"))
    ensures Locate(s, goalId, userId).Some? ==>
      var g := s.goals[Locate(s, goalId, userId).value.goal];
      && (g.status == Paused ==> o.result == Err(AppError(400, "Goal is paused")))
      && (g.status != Paused && minutes <= 0 ==> o.result == Err(AppError(400, "minutesCompleted must be > 0")))
      && (g.status != Paused && minutes > 0 && g.durationMin <= 0 ==> o.result == Err(AppError(400, "Goal duration is not set")))
      && (g.status != Paused && minutes > 0 && g.durationMin > 0 ==> o.result.Ok?)
    // on success: the writes of `Commit` on the located rows, and nothing else
    ensures o.result.Ok? ==>
      && Locate(s, goalId, userId).Some?
      && minutes > 0 && 0 < s.goals[Locate(s, goalId, userId).value.goal].durationMin
      && s.goals[Locate(s, goalId, userId).value.goal].status != Paused
      && o == Commit(s, goalId, Locate(s, goalId, userId).value, minutes)
    ensures o.store.(assignments := s.assignments, goals := s.goals, children := s.children) == s
  {
    var target := Locate(s, goalId, userId);
    if target.None? then
      if ChildByUser(s, userId).None? then Step(s, Err(AppError(404, "Child profile not found")))
      else Step(s, Err(AppError(404, "Goal assignment not found")))
    else
      var t := target.value;
      var g := s.goals[t.goal];
      if g.status == Paused then Step(s, Err(AppError(400, "Goal is paused")))
      else if minutes <= 0 then Step(s, Err(AppError(400, "minutesCompleted must be > 0")))
      else if g.durationMin <= 0 then Step(s, Err(AppError(400, "Goal duration is not set")))
      else Commit(s, goalId, t, minutes)
  }
}
