/**
 * `startTask`: a child starts working on a goal and a timer is armed to log the
 * remaining minutes when the time is up. The timers live in a process-wide table
 * keyed by "goalId:childId"; starting again replaces the pending timer. Starting
 * writes nothing to the database.
 */
module GoalTimer {
  import opened Wrappers
  import opened Numeric
  import opened Entities
  import opened GoalProgress

  /** A pending `setTimeout`: the `updateProgress` call it will make, and its delay. */
  datatype Timer = Timer(goalId: Id, userId: Id, minutes: int, delayMs: int)

  type Timers = map<string, Timer>

  const MinuteMs: int := 60 * 1000

  function TimerKey(goalId: Id, childId: Id): string {
    goalId + ":" + childId
  }

  /** What `startTask` returns. */
  datatype StartResult = StartResult(goalId: Id, childId: Id, scheduledMs: int, endsAt: Instant, alreadyCompleted: bool)

  /** The minutes still to do: `max(d - round(p / 100 * d), 0)`. */
  function Remaining(percentage: int, durationMin: int): (r: int)
    requires durationMin > 0
    ensures 0 <= r
    ensures r == 0 <==> MinutesOf(percentage, durationMin) >= durationMin
    ensures r > 0 ==> MinutesOf(percentage, durationMin) + r == durationMin
    ensures percentage >= 100 ==> r == 0
    ensures 0 <= percentage <= 100 ==> r <= durationMin
  {
    Max(durationMin - MinutesOf(percentage, durationMin), 0)
  }

  /** `startTask(goalId, userId)` at time `now`. */
  function StartTask(s: Store, timers: Timers, goalId: Id, userId: Id, now: Instant): (r: (Timers, Result<StartResult, Error>))
    requires GoalsLinked(s)
    ensures r.1.Err? ==> r.0 == timers
    // the guards, in order
    ensures ChildByUser(s, userId).None? ==> r.1 == Err(AppError(404, "Child profile not found"))
    ensures ChildByUser(s, userId).Some? && Locate(s, goalId, userId).None? ==>
      r.1 == Err(AppError(404, "Goal assignment not found"))
    ensures Locate(s, goalId, userId).Some? ==>
      var g := s.goals[Locate(s, goalId, userId).value.goal];
      && (g.status == Paused ==> r.1 == Err(AppError(400, "Goal is paused")))
      && (g.status == Completed ==> r.1 == Err(AppError(400, "Goal is completed")))
      && (g.status != Paused && g.status != Completed && g.durationMin <= 0 ==> r.1 == Err(AppError(400, "Goal duration is not set")))
      && (g.status != Paused && g.status != Completed && g.durationMin > 0 ==> r.1.Ok?)
    // nothing left to do: no timer
    ensures r.1.Ok? ==>
      var t := Locate(s, goalId, userId).value;
      var g := s.goals[t.goal];
      var a := s.assignments[t.assignment];
      && g.durationMin > 0
      && r.1.value.childId == s.children[t.child].id
      && (r.1.value.alreadyCompleted <==> MinutesOf(a.percentage, g.durationMin) >= g.durationMin)
      && (r.1.value.alreadyCompleted ==> r.0 == timers && r.1.value.scheduledMs == 0 && r.1.value.endsAt == now)
    // otherwise exactly one pending timer for this assignment, replacing any earlier one
    ensures r.1.Ok? && !r.1.value.alreadyCompleted ==>
      var t := Locate(s, goalId, userId).value;
      var g := s.goals[t.goal];
      var a := s.assignments[t.assignment];
      var key := TimerKey(goalId, s.children[t.child].id);
      var remaining := g.durationMin - MinutesOf(a.percentage, g.durationMin);
      && 0 < remaining
      && r.1.value.scheduledMs == remaining * MinuteMs
      && r.1.value.endsAt == now + r.1.value.scheduledMs
      && r.0 == timers[key := Timer(goalId, userId, remaining, remaining * MinuteMs)]
      && r.0.Keys == timers.Keys + {key}
  {
    var target := Locate(s, goalId, userId);
    if target.None? then
      if ChildByUser(s, userId).None? then (timers, Err(AppError(404, "Child profile not found")))
      else (timers, Err(AppError(404, "Goal assignment not found")))
    else
      var t := target.value;
      var g := s.goals[t.goal];
      var childId := s.children[t.child].id;
      if g.status == Paused then (timers, Err(AppError(400, "Goal is paused")))
      else if g.status == Completed then (timers, Err(AppError(400, "Goal is completed")))
      else if g.durationMin <= 0 then (timers, Err(AppError(400, "Goal duration is not set")))
      else
        var remaining := Remaining(s.assignments[t.assignment].percentage, g.durationMin);
        if remaining == 0 then
          (timers, Ok(StartResult(goalId, childId, 0, now, true)))
        else
          var ms := remaining * MinuteMs;
          (timers[TimerKey(goalId, childId) := Timer(goalId, userId, remaining, ms)],
           Ok(StartResult(goalId, childId, ms, now + ms, false)))
  }

  /**
   * The timer under `key` goes off: it logs its minutes through `updateProgress`,
   * swallows any error, and leaves the table.
   */
  function FireTimer(s: Store, timers: Timers, key: string): (r: (Store, Timers))
    requires GoalsLinked(s) && key in timers
    ensures r.1 == timers - {key}
    ensures r.0 == UpdateProgress(s, timers[key].goalId, timers[key].userId, timers[key].minutes).store
  {
    var t := timers[key];
    (UpdateProgress(s, t.goalId, t.userId, t.minutes).store, timers - {key})
  }

  /**
   * Starting a task and letting its timer go off on an unchanged store brings the
   * child's assignment to exactly 100% and clears the timer.
   */
  lemma StartThenFireCompletes(s: Store, timers: Timers, goalId: Id, userId: Id, now: Instant)
    requires GoalsLinked(s)
    requires StartTask(s, timers, goalId, userId, now).1.Ok?
    requires !StartTask(s, timers, goalId, userId, now).1.value.alreadyCompleted
    ensures
      var t := Locate(s, goalId, userId).value;
      var armed := StartTask(s, timers, goalId, userId, now).0;
      var key := TimerKey(goalId, s.children[t.child].id);
      && key in armed
      && FireTimer(s, armed, key).0.assignments[t.assignment].percentage == 100
      && key !in FireTimer(s, armed, key).1
  {
    var t := Locate(s, goalId, userId).value;
    var g := s.goals[t.goal];
    var a := s.assignments[t.assignment];
    var remaining := g.durationMin - MinutesOf(a.percentage, g.durationMin);
    var o := UpdateProgress(s, goalId, userId, remaining);
    assert o.result.Ok?;
    assert AdvanceBy(a.percentage, g.durationMin, remaining).minutesLogged == g.durationMin;
  }

  /** In a key built from a colon-free goal id, the first colon ends the goal id. */
  lemma FirstColon(g: Id, c: Id)
    requires ':' !in g
    ensures TimerKey(g, c)[|g|] == ':'
    ensures forall i :: 0 <= i < |g| ==> TimerKey(g, c)[i] != ':'
  {
    forall i | 0 <= i < |g|
      ensures TimerKey(g, c)[i] != ':'
    {
      assert TimerKey(g, c)[i] == g[i];
    }
  }

  /** Keys of timers never collide when goal ids contain no colon. */
  lemma TimerKeyInjective(g1: Id, c1: Id, g2: Id, c2: Id)
    requires ':' !in g1 && ':' !in g2
    requires TimerKey(g1, c1) == TimerKey(g2, c2)
    ensures g1 == g2 && c1 == c2
  {
    var k := TimerKey(g1, c1);
    FirstColon(g1, c1);
    FirstColon(g2, c2);
    assert |g1| == |g2|;
    assert g1 == k[..|g1|] == g2;
    assert c1 == k[|g1| + 1..] == c2;
  }
}
