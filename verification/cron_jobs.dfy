/**
 * The scheduled jobs: the nightly reset of daily goals, the creation-anniversary
 * resets of weekly and monthly goals, and the half-hourly sweep that cancels
 * active goals whose end date has passed. Each job is one transition of the
 * store at the instant `now` it runs; the schedule itself is not modelled.
 */
module CronJobs {
  import opened Wrappers
  import opened Numeric
  import opened Entities
  import opened GoalProgress
  import opened GoalProgressFacts
  import opened GoalStoreFacts

  const DayMs: int := 1000 * 60 * 60 * 24

  /** Whole days between two instants, in either order: `floor(|b - a| / day)`. */
  function DaysBetween(a: Instant, b: Instant): (r: nat)
    ensures r * DayMs <= b - a < (r + 1) * DayMs || r * DayMs <= a - b < (r + 1) * DayMs
    ensures a == b ==> r == 0
  {
    var diff := if b >= a then b - a else a - b;
    DivBracket(diff, DayMs);
    diff / DayMs
  }

  /** The order of the two instants does not matter. */
  lemma {:induction false} DaysBetweenSymmetric(a: Instant, b: Instant)
    ensures DaysBetween(a, b) == DaysBetween(b, a)
  {
    var k := DaysBetween(a, b);
    if b >= a {
      DaysBetweenOfWholeDays(a, k, b - a - k * DayMs);
    } else {
      DaysBetweenOfWholeDays(b, k, a - b - k * DayMs);
    }
  }

  /** `k` whole days and a part of a day apart, in either order, is `k` days. */
  lemma DaysBetweenOfWholeDays(a: Instant, k: nat, rest: int)
    requires 0 <= rest < DayMs
    ensures DaysBetween(a, a + k * DayMs + rest) == k
    ensures DaysBetween(a + k * DayMs + rest, a) == k
  {
    FloorDivUnique(k * DayMs + rest, DayMs, k);
  }

  /** The goals a job considers: of its type, active, not deleted. */
  predicate InCycle(g: Goal, kind: GoalType) {
    g.kind == kind && g.status == Active && !g.isDeleted
  }

  /**
   * A weekly (period 7) or monthly (period 30) goal is due on the days that are a
   * whole number of periods away from its creation.
   */
  predicate DueOn(g: Goal, kind: GoalType, period: nat, now: Instant)
    requires period > 0
  {
    InCycle(g, kind) && DaysBetween(now, g.createdAt) % period == 0
  }

  /** Ids of the goals the nightly job resets. */
  function CycleIds(goals: seq<Goal>, kind: GoalType): (r: set<Id>)
    ensures forall id :: id in r <==> exists g :: g in goals && InCycle(g, kind) && g.id == id
  {
    set g | g in goals && InCycle(g, kind) :: g.id
  }

  /** Ids of the goals a periodic job resets at `now`. */
  function DueIds(goals: seq<Goal>, kind: GoalType, period: nat, now: Instant): (r: set<Id>)
    requires period > 0
    ensures forall id :: id in r <==> exists g :: g in goals && DueOn(g, kind, period, now) && g.id == id
  {
    set g | g in goals && DueOn(g, kind, period, now) :: g.id
  }

  /**
   * The assignment column a reset zeroes. The jobs as written zero `progress`,
   * which the progress engine never reads; `percentage` is the column it reads,
   * and the one a reset evidently means to restart.
   */
  datatype ResetColumn = ProgressColumn | PercentageColumn

  function Zeroed(a: Assignment, col: ResetColumn): (r: Assignment)
    ensures col == ProgressColumn ==> r == a.(progress := 0)
    ensures col == PercentageColumn ==> r == a.(percentage := 0)
  {
    match col
    case ProgressColumn => a.(progress := 0)
    case PercentageColumn => a.(percentage := 0)
  }

  /** Zeroes the column `col` of every assignment, deleted or not, of the goals in `ids`. */
  function ZeroAssignments(asg: seq<Assignment>, ids: set<Id>, col: ResetColumn): (r: seq<Assignment>)
    ensures |r| == |asg|
    ensures forall i :: 0 <= i < |asg| ==> r[i] == if asg[i].goalId in ids then Zeroed(asg[i], col) else asg[i]
  {
    seq(|asg|, i requires 0 <= i < |asg| => if asg[i].goalId in ids then Zeroed(asg[i], col) else asg[i])
  }

  /**
   * The nightly job: the column `col` of every assignment of an active daily goal
   * restarts at 0 (`ProgressColumn` as written, `PercentageColumn` as intended).
   */
  function DailyReset(s: Store, col: ResetColumn): (s': Store)
    ensures s' == s.(assignments := s'.assignments)
    ensures |s'.assignments| == |s.assignments|
    ensures forall i :: 0 <= i < |s.assignments| ==>
      var a := s.assignments[i];
      s'.assignments[i] == if exists g :: g in s.goals && InCycle(g, Daily) && g.id == a.goalId then Zeroed(a, col) else a
  {
    s.(assignments := ZeroAssignments(s.assignments, CycleIds(s.goals, Daily), col))
  }

  /**
   * The weekly or monthly job: each due goal's rollup and the column `col` of every
   * assignment of it restart at 0. The source resets goal by goal; the resets
   * touch disjoint rows, so doing them at once is the same.
   */
  function PeriodicReset(s: Store, kind: GoalType, period: nat, now: Instant, col: ResetColumn): (s': Store)
    requires period > 0
    ensures s' == s.(goals := s'.goals, assignments := s'.assignments)
    ensures |s'.goals| == |s.goals|
    ensures forall i :: 0 <= i < |s.goals| ==>
      s'.goals[i] == if DueOn(s.goals[i], kind, period, now) then s.goals[i].(progress := 0) else s.goals[i]
    ensures |s'.assignments| == |s.assignments|
    ensures forall i :: 0 <= i < |s.assignments| ==>
      var a := s.assignments[i];
      s'.assignments[i] == if exists g :: g in s.goals && DueOn(g, kind, period, now) && g.id == a.goalId then Zeroed(a, col) else a
  {
    var ids := DueIds(s.goals, kind, period, now);
    var goals' := seq(|s.goals|, i requires 0 <= i < |s.goals| =>
      if DueOn(s.goals[i], kind, period, now) then s.goals[i].(progress := 0) else s.goals[i]);
    s.(goals := goals', assignments := ZeroAssignments(s.assignments, ids, col))
  }

  function WeeklyReset(s: Store, now: Instant, col: ResetColumn): (s': Store)
    ensures s' == PeriodicReset(s, Weekly, 7, now, col)
  {
    PeriodicReset(s, Weekly, 7, now, col)
  }

  function MonthlyReset(s: Store, now: Instant, col: ResetColumn): (s': Store)
    ensures s' == PeriodicReset(s, Monthly, 30, now, col)
  {
    PeriodicReset(s, Monthly, 30, now, col)
  }

  /** An active, live goal whose end date is strictly before `now`. */
  predicate Expired(g: Goal, now: Instant) {
    g.endDate.Some? && g.endDate.value < now && g.status == Active && !g.isDeleted
  }

  /** The half-hourly sweep: expired goals become cancelled; nothing else changes. */
  function ExpirySweep(s: Store, now: Instant): (s': Store)
    ensures s' == s.(goals := s'.goals)
    ensures |s'.goals| == |s.goals|
    ensures forall i :: 0 <= i < |s.goals| ==>
      s'.goals[i] == if Expired(s.goals[i], now) then s.goals[i].(status := Cancelled) else s.goals[i]
  {
    s.(goals := seq(|s.goals|, i requires 0 <= i < |s.goals| =>
      if Expired(s.goals[i], now) then s.goals[i].(status := Cancelled) else s.goals[i]))
  }

  // ---- what the jobs guarantee ----

  /** Running the nightly job twice is running it once. */
  lemma DailyResetIdempotent(s: Store, col: ResetColumn)
    ensures DailyReset(DailyReset(s, col), col) == DailyReset(s, col)
  {
    var s1 := DailyReset(s, col);
    var s2 := DailyReset(s1, col);
    assert s1.goals == s.goals;
    assert s2.assignments == s1.assignments;
  }

  /** Running a periodic job twice at the same instant is running it once. */
  lemma PeriodicResetIdempotent(s: Store, kind: GoalType, period: nat, now: Instant, col: ResetColumn)
    requires period > 0
    ensures PeriodicReset(PeriodicReset(s, kind, period, now, col), kind, period, now, col) == PeriodicReset(s, kind, period, now, col)
  {
    var s1 := PeriodicReset(s, kind, period, now, col);
    var s2 := PeriodicReset(s1, kind, period, now, col);
    DueIdsIgnoreProgress(s.goals, s1.goals, kind, period, now);
    assert s2.goals == s1.goals;
    assert s2.assignments == s1.assignments;
  }

  /** Resetting rollups does not change which goals are due. */
  lemma DueIdsIgnoreProgress(goals: seq<Goal>, goals': seq<Goal>, kind: GoalType, period: nat, now: Instant)
    requires period > 0 && |goals'| == |goals|
    requires forall i :: 0 <= i < |goals| ==> goals'[i] == goals[i].(progress := goals'[i].progress)
    ensures DueIds(goals', kind, period, now) == DueIds(goals, kind, period, now)
  {
    forall id | id in DueIds(goals, kind, period, now)
      ensures id in DueIds(goals', kind, period, now)
    {
      var g :| g in goals && DueOn(g, kind, period, now) && g.id == id;
      var i :| 0 <= i < |goals| && goals[i] == g;
      assert goals'[i] in goals';
    }
    forall id | id in DueIds(goals', kind, period, now)
      ensures id in DueIds(goals, kind, period, now)
    {
      var g :| g in goals' && DueOn(g, kind, period, now) && g.id == id;
      var i :| 0 <= i < |goals'| && goals'[i] == g;
      assert goals[i] in goals;
    }
  }

  /** After the sweep no goal is still active past its end date. */
  lemma ExpirySweepLeavesNoExpired(s: Store, now: Instant)
    ensures forall i :: 0 <= i < |ExpirySweep(s, now).goals| ==> !Expired(ExpirySweep(s, now).goals[i], now)
  {
  }

  /** A later sweep subsumes an earlier one. */
  lemma ExpirySweepAbsorbs(s: Store, earlier: Instant, later: Instant)
    requires earlier <= later
    ensures ExpirySweep(ExpirySweep(s, earlier), later) == ExpirySweep(s, later)
  {
    var s1 := ExpirySweep(s, earlier);
    assert ExpirySweep(s1, later).goals == ExpirySweep(s, later).goals;
  }

  /** Every job keeps the schema's integrity: keys, links, percentages in range. */
  lemma JobsKeepIntegrity(s: Store, kind: GoalType, period: nat, now: Instant, col: ResetColumn)
    requires period > 0 && Integrity(s)
    ensures Integrity(DailyReset(s, col))
    ensures Integrity(PeriodicReset(s, kind, period, now, col))
    ensures Integrity(ExpirySweep(s, now))
  {
    DailyResetKeepsIntegrity(s, col);
    PeriodicResetKeepsIntegrity(s, kind, period, now, col);
    ExpirySweepKeepsIntegrity(s, now);
  }

  lemma DailyResetKeepsIntegrity(s: Store, col: ResetColumn)
    requires Integrity(s)
    ensures Integrity(DailyReset(s, col))
  {
    SameKeysKeepLinks(s, DailyReset(s, col));
  }

  lemma PeriodicResetKeepsIntegrity(s: Store, kind: GoalType, period: nat, now: Instant, col: ResetColumn)
    requires period > 0 && Integrity(s)
    ensures Integrity(PeriodicReset(s, kind, period, now, col))
  {
    SameKeysKeepLinks(s, PeriodicReset(s, kind, period, now, col));
  }

  lemma ExpirySweepKeepsIntegrity(s: Store, now: Instant)
    requires Integrity(s)
    ensures Integrity(ExpirySweep(s, now))
  {
    SameKeysKeepLinks(s, ExpirySweep(s, now));
  }

  /** A weekly goal created a whole number of weeks (and part of a day) ago is reset. */
  lemma WeeklyResetOnAnniversary(s: Store, now: Instant, i: nat, weeks: nat, rest: int, col: ResetColumn)
    requires i < |s.goals| && InCycle(s.goals[i], Weekly)
    requires 0 <= rest < DayMs && now == s.goals[i].createdAt + 7 * weeks * DayMs + rest
    ensures WeeklyReset(s, now, col).goals[i].progress == 0
    ensures forall j :: 0 <= j < |s.assignments| && s.assignments[j].goalId == s.goals[i].id ==>
      WeeklyReset(s, now, col).assignments[j] == Zeroed(s.assignments[j], col)
  {
    DaysBetweenOfWholeDays(s.goals[i].createdAt, 7 * weeks, rest);
    assert 7 * weeks * DayMs == (7 * weeks) * DayMs;
    assert DueOn(s.goals[i], Weekly, 7, now);
    assert s.goals[i] in s.goals;
  }

  /** ...and a weekly goal on any other day of its week is left alone. */
  lemma WeeklyResetOffAnniversary(s: Store, now: Instant, i: nat, days: nat, rest: int, col: ResetColumn)
    requires i < |s.goals| && days % 7 != 0
    requires 0 <= rest < DayMs && now == s.goals[i].createdAt + days * DayMs + rest
    ensures WeeklyReset(s, now, col).goals[i] == s.goals[i]
  {
    DaysBetweenOfWholeDays(s.goals[i].createdAt, days, rest);
  }

  /**
   * Once every child of a daily goal has finished, the progress engine marks the
   * goal Completed, and the nightly job, which only looks at active goals, never
   * restarts it: the goal does not recur.
   */
  lemma CompletedDailyGoalIsNotReset(s: Store, goalId: Id, userId: Id, minutes: int, col: ResetColumn)
    requires GoalsLinked(s)
    requires UpdateProgress(s, goalId, userId, minutes).result.Ok?
    requires UpdateProgress(s, goalId, userId, minutes).result.value.goalStatus == Completed
    requires forall j :: 0 <= j < |s.goals| && s.goals[j].id == goalId ==> j == Locate(s, goalId, userId).value.goal
    ensures
      var s' := UpdateProgress(s, goalId, userId, minutes).store;
      DailyReset(s', col).assignments[Locate(s, goalId, userId).value.assignment] ==
        s'.assignments[Locate(s, goalId, userId).value.assignment]
  {
    var t := Locate(s, goalId, userId).value;
    var s' := UpdateProgress(s, goalId, userId, minutes).store;
    UpdateProgressKeepsKeys(s, goalId, userId, minutes);
    assert s'.goals[t.goal].status == Completed;
  }

  /**
   * As written, the nightly job leaves every child's percentage, the column the
   * progress engine reads, exactly as it was.
   */
  lemma WrittenResetKeepsPercentages(s: Store, now: Instant, kind: GoalType, period: nat)
    requires period > 0
    ensures forall i :: 0 <= i < |s.assignments| ==>
      DailyReset(s, ProgressColumn).assignments[i].percentage == s.assignments[i].percentage
    ensures forall i :: 0 <= i < |s.assignments| ==>
      PeriodicReset(s, kind, period, now, ProgressColumn).assignments[i].percentage == s.assignments[i].percentage
  {
  }

  /**
   * The discrepancy, on an input: a child who finished an active daily goal
   * yesterday (percentage 100) logs the whole duration again after the nightly
   * job as written, and is paid nothing.
   */
  lemma WrittenResetPaysNoReward(s: Store, goalId: Id, userId: Id)
    requires GoalsLinked(s)
    requires Locate(s, goalId, userId).Some?
    requires
      var t := Locate(s, goalId, userId).value;
      var g := s.goals[t.goal];
      InCycle(g, Daily) && g.durationMin > 0 && s.assignments[t.assignment].percentage >= 100
    ensures
      var s' := DailyReset(s, ProgressColumn);
      var g := s.goals[Locate(s, goalId, userId).value.goal];
      var o := UpdateProgress(s', goalId, userId, g.durationMin);
      o.result.Ok? && o.result.value.rewardGiven == 0
  {
    var t := Locate(s, goalId, userId).value;
    var g := s.goals[t.goal];
    var s' := DailyReset(s, ProgressColumn);
    SameKeysKeepLinks(s, s');
    LocateStable(s, s', goalId, userId);
    assert g in s.goals;
    assert s'.assignments[t.assignment].percentage == s.assignments[t.assignment].percentage;
  }

  /**
   * As intended: a child who finished an active daily goal yesterday is paid
   * again today, since after the nightly reset of the percentage column logging
   * the whole duration completes the goal anew.
   */
  lemma DailyResetReopensReward(s: Store, goalId: Id, userId: Id)
    requires GoalsLinked(s)
    requires Locate(s, goalId, userId).Some?
    requires
      var g := s.goals[Locate(s, goalId, userId).value.goal];
      InCycle(g, Daily) && g.durationMin > 0
    ensures
      var s' := DailyReset(s, PercentageColumn);
      var g := s.goals[Locate(s, goalId, userId).value.goal];
      var o := UpdateProgress(s', goalId, userId, g.durationMin);
      o.result.Ok? && o.result.value.rewardGiven == g.rewardCoins
  {
    var t := Locate(s, goalId, userId).value;
    var g := s.goals[t.goal];
    var s' := DailyReset(s, PercentageColumn);
    SameKeysKeepLinks(s, s');
    LocateStable(s, s', goalId, userId);
    assert g in s.goals;
    assert s'.assignments[t.assignment].percentage == 0;
    PercentOfFacts(g.durationMin, g.durationMin);
    assert AdvanceBy(0, g.durationMin, g.durationMin).percent == 100;
  }
}
