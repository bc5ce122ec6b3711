/**
 * Creating and editing goals, and the two listings: the parent's goals with
 * their rollups, and a child's assignments with their goals.
 */
module GoalStore {
  import opened Wrappers
  import opened Tables
  import opened Entities

  /** A create payload as the service receives it (after validation). */
  datatype GoalDraft = GoalDraft(
    title: string,
    description: Option<string>,
    kind: GoalType,
    status: Option<GoalStatus>,
    rewardCoins: int,
    durationMin: int,
    startDate: Option<Instant>,
    endDate: Option<Instant>,
    assignedChildIds: seq<Id>,
    isRecurring: Option<bool>)

  /** An update payload: every field optional. */
  datatype GoalPatch = GoalPatch(
    title: Option<string>,
    description: Option<string>,
    kind: Option<GoalType>,
    status: Option<GoalStatus>,
    rewardCoins: Option<int>,
    durationMin: Option<int>,
    startDate: Option<Instant>,
    endDate: Option<Instant>,
    assignedChildIds: Option<seq<Id>>,
    isDeleted: Option<bool>,
    isRecurring: Option<bool>)

  /** `createMany` of fresh assignments: 0% and not deleted, one per listed child. */
  function FreshAssignments(goalId: Id, ids: seq<Id>): (r: seq<Assignment>)
    ensures |r| == |ids|
    ensures forall i :: 0 <= i < |ids| ==> r[i] == Assignment(goalId, ids[i], 0, 0, false)
  {
    if |ids| == 0 then [] else [Assignment(goalId, ids[0], 0, 0, false)] + FreshAssignments(goalId, ids[1..])
  }

  /** `createGoal`: a CHILD author is checked first; then the goal and its assignments are written together. */
  function CreateGoal(s: Store, author: Actor, draft: GoalDraft, newId: Id, now: Instant): (o: Step<Goal>)
    requires GoalById(s, newId).None?
    ensures o.result.Err? ==> o.store == s
    ensures author.role == Child && ChildByUser(s, author.id).None? ==>
      o.result == Err(AppError(404, "Child profile not found"))
    ensures author.role == Child && ChildByUser(s, author.id).Some? ==>
      var c := s.children[ChildByUser(s, author.id).value];
      && (!c.permissions.createGoals ==> o.result == Err(AppError(403, "You are not allowed to create goals")))
      && (c.permissions.createGoals && (exists i :: 0 <= i < |draft.assignedChildIds| && draft.assignedChildIds[i] != author.id) ==>
            o.result == Err(AppError(403, "Children cannot assign goals to other children")))
    ensures o.result.Ok? <==>
      && (author.role == Child ==>
            && ChildByUser(s, author.id).Some?
            && s.children[ChildByUser(s, author.id).value].permissions.createGoals
            && forall i :: 0 <= i < |draft.assignedChildIds| ==> draft.assignedChildIds[i] == author.id)
      && !HasDuplicates(draft.assignedChildIds)
    ensures o.result.Ok? ==>
      var g := o.result.value;
      && g.id == newId && g.authorId == author.id && g.authorRole == author.role
      && g.status == Active && g.progress == 0 && !g.isDeleted && g.createdAt == now
      && g.title == draft.title && g.description == draft.description && g.kind == draft.kind
      && g.startDate == draft.startDate && g.endDate == draft.endDate && g.isRecurring == draft.isRecurring
      && g.rewardCoins == draft.rewardCoins && g.durationMin == draft.durationMin
      && o.store == s.(goals := s.goals + [g], assignments := s.assignments + FreshAssignments(newId, draft.assignedChildIds))
  {
    if author.role == Child && ChildByUser(s, author.id).None? then
      Step(s, Err(AppError(404, "Child profile not found")))
    else if author.role == Child && !s.children[ChildByUser(s, author.id).value].permissions.createGoals then
      Step(s, Err(AppError(403, "You are not allowed to create goals")))
    else if author.role == Child && exists i :: 0 <= i < |draft.assignedChildIds| && draft.assignedChildIds[i] != author.id then
      Step(s, Err(AppError(403, "Children cannot assign goals to other children")))
    else if HasDuplicates(draft.assignedChildIds) then
      Step(s, Err(UniqueViolation))
    else
      var g := Goal(newId, author.id, author.role, draft.title, draft.description, draft.kind, Active,
                    draft.rewardCoins, draft.durationMin, draft.startDate, draft.endDate, draft.isRecurring,
                    0, false, now);
      Step(s.(goals := s.goals + [g], assignments := s.assignments + FreshAssignments(newId, draft.assignedChildIds)), Ok(g))
  }

  /** The name of the first field a CHILD may not send, in the order the service checks them. */
  function FirstForbidden(p: GoalPatch): (r: Option<string>)
    ensures r.None? <==>
      && p.rewardCoins.None? && p.durationMin.None? && p.kind.None? && p.status.None?
      && p.assignedChildIds.None? && p.isDeleted.None? && p.startDate.None? && p.endDate.None?
  {
    if p.rewardCoins.Some? then Some("rewardCoins")
    else if p.durationMin.Some? then Some("durationMin")
    else if p.kind.Some? then Some("type")
    else if p.status.Some? then Some("status")
    else if p.assignedChildIds.Some? then Some("assignedChildIds")
    else if p.isDeleted.Some? then Some("isDeleted")
    else if p.startDate.Some? then Some("startDate")
    else if p.endDate.Some? then Some("endDate")
    else None
  }

  /** The goal row after `goal.update`: a field sent is written, a field left out is kept. */
  function Patched(g: Goal, p: GoalPatch): (g': Goal)
    ensures g'.id == g.id && g'.authorId == g.authorId && g'.authorRole == g.authorRole
    ensures g'.progress == g.progress && g'.createdAt == g.createdAt && g'.isRecurring == g.isRecurring
    ensures g'.title == p.title.GetOr(g.title) && g'.description == (if p.description.Some? then p.description else g.description)
    ensures g'.kind == p.kind.GetOr(g.kind) && g'.status == p.status.GetOr(g.status)
    ensures g'.rewardCoins == p.rewardCoins.GetOr(g.rewardCoins) && g'.durationMin == p.durationMin.GetOr(g.durationMin)
    ensures g'.isDeleted == p.isDeleted.GetOr(g.isDeleted)
    ensures g'.startDate == (if p.startDate.Some? then p.startDate else g.startDate)
    ensures g'.endDate == (if p.endDate.Some? then p.endDate else g.endDate)
    ensures FirstForbidden(p).None? ==> g' == g.(title := g'.title, description := g'.description)
  {
    g.(title := p.title.GetOr(g.title),
       description := if p.description.Some? then p.description else g.description,
       rewardCoins := p.rewardCoins.GetOr(g.rewardCoins),
       status := p.status.GetOr(g.status),
       startDate := if p.startDate.Some? then p.startDate else g.startDate,
       endDate := if p.endDate.Some? then p.endDate else g.endDate,
       kind := p.kind.GetOr(g.kind),
       durationMin := p.durationMin.GetOr(g.durationMin),
       isDeleted := p.isDeleted.GetOr(g.isDeleted))
  }

  /** Every assignment of the goal marked deleted; the rest as they were. */
  function MarkAssignmentsDeleted(asg: seq<Assignment>, goalId: Id): (r: seq<Assignment>)
    ensures |r| == |asg|
    ensures forall i :: 0 <= i < |asg| ==>
      r[i] == (if asg[i].goalId == goalId then asg[i].(isDeleted := true) else asg[i])
  {
    if |asg| == 0 then []
    else [if asg[0].goalId == goalId then asg[0].(isDeleted := true) else asg[0]] + MarkAssignmentsDeleted(asg[1..], goalId)
  }

  /** `deleteMany` then `createMany`: the goal's assignments replaced by fresh ones. */
  function Reassigned(asg: seq<Assignment>, goalId: Id, ids: seq<Id>): (r: seq<Assignment>)
  {
    Filter(asg, (a: Assignment) => a.goalId != goalId) + FreshAssignments(goalId, ids)
  }

  /** Some assignment of the goal, deleted or not, carries `childId`. */
  predicate IsAssigned(s: Store, goalId: Id, childId: Id) {
    exists i :: 0 <= i < |s.assignments| && s.assignments[i].goalId == goalId && s.assignments[i].childId == childId
  }

  /** `updateGoal`. */
  function UpdateGoal(s: Store, actor: Actor, goalId: Id, patch: GoalPatch): (o: Step<Goal>)
    ensures o.result.Err? ==> o.store == s
    // the guards, in order
    ensures GoalById(s, goalId).None? ==> o.result == Err(AppError(404, "Goal not found"))
    ensures GoalById(s, goalId).Some? ==>
      var g := s.goals[GoalById(s, goalId).value];
      && (g.isDeleted ==> o.result == Err(AppError(400, "Goal is deleted")))
      && (!g.isDeleted && actor.role == Child ==>
            var ci := ChildByUser(s, actor.id);
            && (ci.None? ==> o.result == Err(AppError(404, "Child profile not found")))
            && (ci.Some? && !IsAssigned(s, goalId, actor.id) ==> o.result == Err(AppError(403, "You are not assigned to this goal")))
            && (ci.Some? && IsAssigned(s, goalId, actor.id) && !s.children[ci.value].permissions.createGoals ==>
                  o.result == Err(AppError(403, "You cannot update goals")))
            && (ci.Some? && IsAssigned(s, goalId, actor.id) && s.children[ci.value].permissions.createGoals && FirstForbidden(patch).Some? ==>
                  o.result == Err(AppError(403, "Children cannot update " + FirstForbidden(patch).value))))
    // success exactly when every guard passes and a PARENT's reassignment has no duplicate child
    ensures o.result.Ok? <==>
      && GoalById(s, goalId).Some?
      && !s.goals[GoalById(s, goalId).value].isDeleted
      && (actor.role == Child ==>
            && ChildByUser(s, actor.id).Some?
            && IsAssigned(s, goalId, actor.id)
            && s.children[ChildByUser(s, actor.id).value].permissions.createGoals
            && FirstForbidden(patch).None?)
      && !(actor.role == Parent && patch.isDeleted != Some(true) && patch.assignedChildIds.Some?
           && HasDuplicates(patch.assignedChildIds.value))
    ensures o.result.Ok? ==>
      var gi := GoalById(s, goalId).value;
      && !s.goals[gi].isDeleted
      && o.result.value == Patched(s.goals[gi], patch)
      && o.store.goals == s.goals[gi := o.result.value]
      && o.store.(goals := s.goals, assignments := s.assignments) == s
    // a CHILD edits title and description only, and never the assignments
    ensures o.result.Ok? && actor.role == Child ==>
      var g := s.goals[GoalById(s, goalId).value];
      && o.result.value == g.(title := o.result.value.title, description := o.result.value.description)
      && o.store.assignments == s.assignments
    // a PARENT deleting the goal cascades the flag to all of its assignments and skips reassignment
    ensures o.result.Ok? && actor.role == Parent && patch.isDeleted == Some(true) ==>
      o.store.assignments == MarkAssignmentsDeleted(s.assignments, goalId)
    // a PARENT reassigning replaces the assignment set with fresh, unstarted rows
    ensures actor.role == Parent && patch.isDeleted != Some(true) && patch.assignedChildIds.Some? && GoalById(s, goalId).Some? ==>
      (o.result.Ok? <==> !s.goals[GoalById(s, goalId).value].isDeleted && !HasDuplicates(patch.assignedChildIds.value))
    ensures o.result.Ok? && actor.role == Parent && patch.isDeleted != Some(true) && patch.assignedChildIds.Some? ==>
      o.store.assignments == Reassigned(s.assignments, goalId, patch.assignedChildIds.value)
    // otherwise the assignments are untouched
    ensures o.result.Ok? && (actor.role == Admin || (patch.isDeleted != Some(true) && patch.assignedChildIds.None?)) ==>
      o.store.assignments == s.assignments
  {
    var gi := GoalById(s, goalId);
    if gi.None? then Step(s, Err(AppError(404, "Goal not found")))
    else
      var g := s.goals[gi.value];
      if g.isDeleted then Step(s, Err(AppError(400, "Goal is deleted")))
      else if actor.role == Child && ChildByUser(s, actor.id).None? then
        Step(s, Err(AppError(404, "Child profile not found")))
      else if actor.role == Child && !IsAssigned(s, goalId, actor.id) then
        Step(s, Err(AppError(403, "You are not assigned to this goal")))
      else if actor.role == Child && !s.children[ChildByUser(s, actor.id).value].permissions.createGoals then
        Step(s, Err(AppError(403, "You cannot update goals")))
      else if actor.role == Child && FirstForbidden(patch).Some? then
        Step(s, Err(AppError(403, "Children cannot update " + FirstForbidden(patch).value)))
      else
        var g' := Patched(g, patch);
        var goals' := s.goals[gi.value := g'];
        if actor.role == Parent && patch.isDeleted == Some(true) then
          Step(s.(goals := goals', assignments := MarkAssignmentsDeleted(s.assignments, goalId)), Ok(g'))
        else if actor.role == Parent && patch.assignedChildIds.Some? then
          if HasDuplicates(patch.assignedChildIds.value) then Step(s, Err(UniqueViolation))
          else Step(s.(goals := goals', assignments := Reassigned(s.assignments, goalId, patch.assignedChildIds.value)), Ok(g'))
        else
          Step(s.(goals := goals'), Ok(g'))
  }

  // ---- listings ----

  /** The percentage column of a result set. */
  function Percentages(asg: seq<Assignment>): (r: seq<int>)
    ensures |r| == |asg|
    ensures forall i :: 0 <= i < |asg| ==> r[i] == asg[i].percentage
  {
    if |asg| == 0 then [] else [asg[0].percentage] + Percentages(asg[1..])
  }

  /** The goal's non-deleted assignments, in table order. */
  function LiveAssignments(s: Store, goalId: Id): (r: seq<Assignment>)
    ensures forall a :: a in r <==> a in s.assignments && a.goalId == goalId && !a.isDeleted
  {
    Filter(s.assignments, (a: Assignment) => a.goalId == goalId && !a.isDeleted)
  }

  /** One row of the parent's goal list. */
  datatype ParentGoalView = ParentGoalView(
    goal: Goal,
    assignedChildren: seq<Assignment>,
    averageProgress: real,
    totalProgress: int,
    completedCount: nat,
    totalChildren: nat)

  lemma QuotientTimesDivisor(x: real, d: real)
    requires d != 0.0
    ensures (x / d) * d == x
  {
  }

  /** The rollup of one goal as the parent's list shows it: an unrounded mean, no assignments counting as one. */
  function ViewOf(s: Store, g: Goal): (v: ParentGoalView)
    ensures v.goal == g && v.assignedChildren == LiveAssignments(s, g.id)
    ensures v.totalChildren == |v.assignedChildren|
    ensures v.totalProgress == Sum(Percentages(v.assignedChildren))
    ensures v.averageProgress * (if v.totalChildren == 0 then 1 else v.totalChildren) as real == v.totalProgress as real
    ensures v.completedCount == CountAtLeast(Percentages(v.assignedChildren), 100)
  {
    var live := LiveAssignments(s, g.id);
    var total := Sum(Percentages(live));
    var divisor := if |live| == 0 then 1 else |live|;
    QuotientTimesDivisor(total as real, divisor as real);
    ParentGoalView(g, live, total as real / divisor as real, total, CountAtLeast(Percentages(live), 100), |live|)
  }

  function ViewsOf(s: Store, goals: seq<Goal>): (r: seq<ParentGoalView>)
    ensures |r| == |goals|
    ensures forall i :: 0 <= i < |goals| ==> r[i] == ViewOf(s, goals[i])
  {
    if |goals| == 0 then [] else [ViewOf(s, goals[0])] + ViewsOf(s, goals[1..])
  }

  /** The goals `parentId` authored and has not deleted. */
  function OwnGoals(s: Store, parentId: Id): (r: seq<Goal>)
    ensures forall g :: g in r <==> g in s.goals && g.authorId == parentId && !g.isDeleted
  {
    Filter(s.goals, (g: Goal) => g.authorId == parentId && !g.isDeleted)
  }

  /** `getParentGoals`: the parent's live goals, each with its live assignments and rollup. */
  function GetParentGoals(s: Store, parentId: Id): (r: seq<ParentGoalView>)
    ensures forall v :: v in r ==> v.goal in s.goals && v.goal.authorId == parentId && !v.goal.isDeleted
    ensures forall v :: v in r ==> v == ViewOf(s, v.goal)
    ensures forall g :: g in s.goals && g.authorId == parentId && !g.isDeleted ==> exists v :: v in r && v.goal == g
    ensures forall v :: v in r ==> forall a :: a in v.assignedChildren ==> a in s.assignments && a.goalId == v.goal.id && !a.isDeleted
  {
    var own := OwnGoals(s, parentId);
    var r := ViewsOf(s, own);
    assert forall v :: v in r ==> v == ViewOf(s, v.goal) by {
      forall v | v in r ensures v == ViewOf(s, v.goal) {
        var i :| 0 <= i < |r| && r[i] == v;
      }
    }
    assert forall g :: g in own ==> ViewOf(s, g) in r by {
      forall g | g in own ensures ViewOf(s, g) in r {
        var i :| 0 <= i < |own| && own[i] == g;
        assert r[i] == ViewOf(s, g);
      }
    }
    r
  }

  /** A child's assignment joined with its goal. */
  datatype AssignedGoal = AssignedGoal(assignment: Assignment, goal: Goal)

  function JoinGoals(s: Store, asg: seq<Assignment>): (r: seq<AssignedGoal>)
    requires forall a :: a in asg ==> HasGoal(s.goals, a.goalId)
    ensures |r| == |asg|
    ensures forall i :: 0 <= i < |asg| ==> r[i].assignment == asg[i] && r[i].goal in s.goals && r[i].goal.id == asg[i].goalId
  {
    if |asg| == 0 then []
    else
      assert asg[0] in asg;
      assert HasGoal(s.goals, asg[0].goalId);
      var gi := GoalById(s, asg[0].goalId);
      [AssignedGoal(asg[0], s.goals[gi.value])] + JoinGoals(s, asg[1..])
  }

  /** Any rows drawn from the assignments table point at existing goals. */
  lemma LinkedRowsHaveGoals(s: Store, rows: seq<Assignment>)
    requires GoalsLinked(s)
    requires forall a :: a in rows ==> a in s.assignments
    ensures forall a :: a in rows ==> HasGoal(s.goals, a.goalId)
  {
    forall a | a in rows ensures HasGoal(s.goals, a.goalId) {
      var i :| 0 <= i < |s.assignments| && s.assignments[i] == a;
    }
  }

  /** The join keeps every row, and pairs each with its goal. */
  lemma JoinGoalsCovers(s: Store, asg: seq<Assignment>)
    requires forall a :: a in asg ==> HasGoal(s.goals, a.goalId)
    ensures forall e :: e in JoinGoals(s, asg) ==> e.assignment in asg && e.goal in s.goals && e.goal.id == e.assignment.goalId
    ensures forall a :: a in asg ==> exists e :: e in JoinGoals(s, asg) && e.assignment == a
  {
    var r := JoinGoals(s, asg);
    forall e | e in r ensures e.assignment in asg {
      var i :| 0 <= i < |r| && r[i] == e;
    }
    forall a | a in asg ensures exists e :: e in r && e.assignment == a {
      var i :| 0 <= i < |asg| && asg[i] == a;
      assert r[i] in r;
    }
  }

  /** `getChildGoals`: the child's non-deleted assignments, each with its goal. */
  function GetChildGoals(s: Store, userId: Id): (r: Result<seq<AssignedGoal>, Error>)
    requires GoalsLinked(s)
    ensures ChildByUser(s, userId).None? <==> r == Err(AppError(404, "Child not found"))
    ensures r.Ok? ==>
      var c := s.children[ChildByUser(s, userId).value];
      && (forall e :: e in r.value ==> e.assignment in s.assignments && e.assignment.childId == c.id && !e.assignment.isDeleted)
      && (forall e :: e in r.value ==> e.goal in s.goals && e.goal.id == e.assignment.goalId)
      && (forall a :: a in s.assignments && a.childId == c.id && !a.isDeleted ==> exists e :: e in r.value && e.assignment == a)
  {
    var ci := ChildByUser(s, userId);
    if ci.None? then Err(AppError(404, "Child not found"))
    else
      var childId := s.children[ci.value].id;
      var own := Filter(s.assignments, (a: Assignment) => a.childId == childId && !a.isDeleted);
      LinkedRowsHaveGoals(s, own);
      var r := JoinGoals(s, own);
      JoinGoalsCovers(s, own);
      Ok(r)
  }
}
