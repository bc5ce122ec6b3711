/**
 * What creating and editing goals preserves and what it implies: the schema's
 * integrity, the reset of progress on reassignment, the consequence of checking
 * a child's assignees against its user id, and the range of the parent rollup.
 */
module GoalStoreFacts {
  import opened Wrappers
  import opened Numeric
  import opened Tables
  import opened Entities
  import opened GoalProgress
  import opened GoalStore

  ghost predicate Integrity(s: Store) {
    GoalsLinked(s) && AssignmentsUnique(s.assignments) && PercentagesInRange(s.assignments)
  }

  lemma FreshAssignmentsUnique(goalId: Id, ids: seq<Id>)
    requires !HasDuplicates(ids)
    ensures AssignmentsUnique(FreshAssignments(goalId, ids))
  {
    var f := FreshAssignments(goalId, ids);
    forall i, j | 0 <= i < j < |f|
      ensures !(f[i].goalId == f[j].goalId && f[i].childId == f[j].childId)
    {
      assert f[i].childId == ids[i] && f[j].childId == ids[j];
    }
  }

  /** Two unique tables whose goal ids never meet stay unique side by side. */
  lemma UniqueConcat(a: seq<Assignment>, b: seq<Assignment>, goalId: Id)
    requires AssignmentsUnique(a) && AssignmentsUnique(b)
    requires forall i :: 0 <= i < |a| ==> a[i].goalId != goalId
    requires forall i :: 0 <= i < |b| ==> b[i].goalId == goalId
    ensures AssignmentsUnique(a + b)
  {
    var c := a + b;
    forall i, j | 0 <= i < j < |c|
      ensures !(c[i].goalId == c[j].goalId && c[i].childId == c[j].childId)
    {
      if j < |a| {
      } else if i >= |a| {
        assert c[i] == b[i - |a|] && c[j] == b[j - |a|];
      } else {
        assert c[i] == a[i] && c[j] == b[j - |a|];
      }
    }
  }

  lemma {:induction false} FilterKeepsUnique(asg: seq<Assignment>, p: Assignment -> bool)
    requires AssignmentsUnique(asg)
    ensures AssignmentsUnique(Filter(asg, p))
  {
    if |asg| > 0 {
      var rest := asg[1..];
      assert AssignmentsUnique(rest) by {
        forall i, j | 0 <= i < j < |rest|
          ensures !(rest[i].goalId == rest[j].goalId && rest[i].childId == rest[j].childId)
        {
          assert rest[i] == asg[i + 1] && rest[j] == asg[j + 1];
        }
      }
      FilterKeepsUnique(rest, p);
      if p(asg[0]) {
        var f := Filter(rest, p);
        var c := [asg[0]] + f;
        forall i, j | 0 <= i < j < |c|
          ensures !(c[i].goalId == c[j].goalId && c[i].childId == c[j].childId)
        {
          if i == 0 {
            assert c[j] == f[j - 1];
            assert f[j - 1] in rest;
            var k :| 0 <= k < |rest| && rest[k] == f[j - 1];
            assert asg[k + 1] == rest[k];
          } else {
            assert c[i] == f[i - 1] && c[j] == f[j - 1];
          }
        }
      }
    }
  }

  /** Creating a goal keeps every assignment linked, keys unique and percentages in range. */
  lemma CreateGoalKeepsIntegrity(s: Store, author: Actor, draft: GoalDraft, newId: Id, now: Instant)
    requires GoalById(s, newId).None? && Integrity(s)
    ensures Integrity(CreateGoal(s, author, draft, newId, now).store)
  {
    var o := CreateGoal(s, author, draft, newId, now);
    if o.result.Ok? {
      var g := o.result.value;
      var added := FreshAssignments(newId, draft.assignedChildIds);
      assert forall i :: 0 <= i < |s.assignments| ==> s.assignments[i].goalId != newId by {
        forall i | 0 <= i < |s.assignments| ensures s.assignments[i].goalId != newId {
          assert HasGoal(s.goals, s.assignments[i].goalId);
        }
      }
      FreshAssignmentsUnique(newId, draft.assignedChildIds);
      UniqueConcat(s.assignments, added, newId);
      var s' := o.store;
      forall i | 0 <= i < |s'.assignments| ensures HasGoal(s'.goals, s'.assignments[i].goalId) {
        if i < |s.assignments| {
          assert s'.assignments[i] == s.assignments[i];
          assert HasGoal(s.goals, s.assignments[i].goalId);
          var j :| 0 <= j < |s.goals| && s.goals[j].id == s.assignments[i].goalId;
          assert s'.goals[j] == s.goals[j];
        } else {
          assert s'.assignments[i] == added[i - |s.assignments|];
          assert s'.goals[|s.goals|] == g;
        }
      }
    }
  }

  /** After a PARENT reassigns a goal, its assignments are exactly added, unstarted rows for the new list. */
  lemma ReassignResetsProgress(s: Store, actor: Actor, goalId: Id, patch: GoalPatch)
    requires actor.role == Parent && patch.isDeleted != Some(true) && patch.assignedChildIds.Some?
    requires UpdateGoal(s, actor, goalId, patch).result.Ok?
    ensures
      var s' := UpdateGoal(s, actor, goalId, patch).store;
      var ofGoal := Filter(s'.assignments, (a: Assignment) => a.goalId == goalId);
      && ofGoal == FreshAssignments(goalId, patch.assignedChildIds.value)
      && forall i :: 0 <= i < |ofGoal| ==> ofGoal[i].percentage == 0 && ofGoal[i].childId == patch.assignedChildIds.value[i]
  {
    var ids := patch.assignedChildIds.value;
    var kept := Filter(s.assignments, (a: Assignment) => a.goalId != goalId);
    var added := FreshAssignments(goalId, ids);
    var p := (a: Assignment) => a.goalId == goalId;
    FilterConcat(kept, added, p);
    FilterNone(kept, p);
    FilterAll(added, p);
  }

  /** Renaming nothing: a table of goals with the same ids links the same assignments. */
  lemma SameGoalIdsKeepLinks(goals: seq<Goal>, goals': seq<Goal>, id: Id)
    requires |goals'| == |goals| && forall j :: 0 <= j < |goals| ==> goals'[j].id == goals[j].id
    requires HasGoal(goals, id)
    ensures HasGoal(goals', id)
  {
    var j :| 0 <= j < |goals| && goals[j].id == id;
    assert goals'[j].id == id;
  }

  /** Marking a goal's assignments deleted touches no key and no percentage. */
  lemma MarkDeletedKeepsIntegrity(s: Store, goals': seq<Goal>, goalId: Id)
    requires Integrity(s)
    requires |goals'| == |s.goals| && forall j :: 0 <= j < |s.goals| ==> goals'[j].id == s.goals[j].id
    ensures Integrity(s.(goals := goals', assignments := MarkAssignmentsDeleted(s.assignments, goalId)))
  {
    var m := MarkAssignmentsDeleted(s.assignments, goalId);
    forall i | 0 <= i < |m| ensures HasGoal(goals', m[i].goalId) {
      assert HasGoal(s.goals, s.assignments[i].goalId);
      SameGoalIdsKeepLinks(s.goals, goals', m[i].goalId);
    }
  }

  /** Replacing a goal's assignments by fresh, distinct ones keeps the schema's integrity. */
  lemma ReassignKeepsIntegrity(s: Store, goals': seq<Goal>, goalId: Id, ids: seq<Id>)
    requires Integrity(s) && HasGoal(s.goals, goalId) && !HasDuplicates(ids)
    requires |goals'| == |s.goals| && forall j :: 0 <= j < |s.goals| ==> goals'[j].id == s.goals[j].id
    ensures Integrity(s.(goals := goals', assignments := Reassigned(s.assignments, goalId, ids)))
  {
    var kept := Filter(s.assignments, (a: Assignment) => a.goalId != goalId);
    var added := FreshAssignments(goalId, ids);
    var r := Reassigned(s.assignments, goalId, ids);
    FilterKeepsUnique(s.assignments, (a: Assignment) => a.goalId != goalId);
    FreshAssignmentsUnique(goalId, ids);
    assert forall i :: 0 <= i < |kept| ==> kept[i] in s.assignments;
    UniqueConcat(kept, added, goalId);
    SameGoalIdsKeepLinks(s.goals, goals', goalId);
    forall i | 0 <= i < |r| ensures HasGoal(goals', r[i].goalId) && 0 <= r[i].percentage <= 100 {
      if i < |kept| {
        assert r[i] == kept[i] && kept[i] in s.assignments;
        var k :| 0 <= k < |s.assignments| && s.assignments[k] == kept[i];
        assert HasGoal(s.goals, s.assignments[k].goalId);
        SameGoalIdsKeepLinks(s.goals, goals', r[i].goalId);
      } else {
        assert r[i] == added[i - |kept|];
      }
    }
  }

  /** Editing a goal keeps every assignment linked, keys unique and percentages in range. */
  lemma UpdateGoalKeepsIntegrity(s: Store, actor: Actor, goalId: Id, patch: GoalPatch)
    requires Integrity(s)
    ensures Integrity(UpdateGoal(s, actor, goalId, patch).store)
  {
    var o := UpdateGoal(s, actor, goalId, patch);
    if o.result.Ok? {
      var gi := GoalById(s, goalId).value;
      var goals' := s.goals[gi := Patched(s.goals[gi], patch)];
      assert o.store.goals == goals';
      assert HasGoal(s.goals, goalId);
      if actor.role == Parent && patch.isDeleted == Some(true) {
        assert o.store == s.(goals := goals', assignments := MarkAssignmentsDeleted(s.assignments, goalId));
        MarkDeletedKeepsIntegrity(s, goals', goalId);
      } else if actor.role == Parent && patch.assignedChildIds.Some? {
        assert o.store == s.(goals := goals', assignments := Reassigned(s.assignments, goalId, patch.assignedChildIds.value));
        ReassignKeepsIntegrity(s, goals', goalId, patch.assignedChildIds.value);
      } else {
        assert o.store == s.(goals := goals');
        forall i | 0 <= i < |s.assignments| ensures HasGoal(goals', s.assignments[i].goalId) {
          assert HasGoal(s.goals, s.assignments[i].goalId);
          SameGoalIdsKeepLinks(s.goals, goals', s.assignments[i].goalId);
        }
      }
    }
  }

  /**
   * A CHILD may only list its own user id as assignee, but assignments are keyed by
   * child profile id: when the two differ, the child's own new goal is not found
   * by `updateProgress` ("Goal assignment not found").
   */
  lemma ChildCreatedGoalNotFoundByProgress(s: Store, author: Actor, draft: GoalDraft, newId: Id, now: Instant)
    requires GoalById(s, newId).None? && GoalsLinked(s)
    requires author.role == Child && ChildByUser(s, author.id).Some?
    requires s.children[ChildByUser(s, author.id).value].id != author.id
    requires CreateGoal(s, author, draft, newId, now).result.Ok?
    ensures
      var s' := CreateGoal(s, author, draft, newId, now).store;
      GoalsLinked(s') && Locate(s', newId, author.id).None?
  {
    CreateGoalKeepsLinks(s, author, draft, newId, now);
    var s' := CreateGoal(s, author, draft, newId, now).store;
    var cid := s.children[ChildByUser(s, author.id).value].id;
    var added := FreshAssignments(newId, draft.assignedChildIds);
    forall i | 0 <= i < |s'.assignments|
      ensures !(s'.assignments[i].goalId == newId && s'.assignments[i].childId == cid)
    {
      if i < |s.assignments| {
        assert HasGoal(s.goals, s.assignments[i].goalId);
      } else {
        assert s'.assignments[i] == added[i - |s.assignments|];
      }
    }
  }

  lemma CreateGoalKeepsLinks(s: Store, author: Actor, draft: GoalDraft, newId: Id, now: Instant)
    requires GoalById(s, newId).None? && GoalsLinked(s)
    ensures GoalsLinked(CreateGoal(s, author, draft, newId, now).store)
  {
    var o := CreateGoal(s, author, draft, newId, now);
    if o.result.Ok? {
      var s' := o.store;
      var added := FreshAssignments(newId, draft.assignedChildIds);
      forall i | 0 <= i < |s'.assignments| ensures HasGoal(s'.goals, s'.assignments[i].goalId) {
        if i < |s.assignments| {
          assert HasGoal(s.goals, s.assignments[i].goalId);
          var j :| 0 <= j < |s.goals| && s.goals[j].id == s.assignments[i].goalId;
          assert s'.goals[j] == s.goals[j];
        } else {
          assert s'.assignments[i] == added[i - |s.assignments|];
          assert s'.goals[|s.goals|] == o.result.value;
        }
      }
    }
  }

  /** The parent's unrounded average lies in [0, 100], and is 0 for a goal nobody is assigned. */
  lemma ParentAverageInRange(s: Store, g: Goal)
    requires PercentagesInRange(s.assignments)
    ensures 0.0 <= ViewOf(s, g).averageProgress <= 100.0
    ensures ViewOf(s, g).totalChildren == 0 ==> ViewOf(s, g).averageProgress == 0.0
  {
    var live := LiveAssignments(s, g.id);
    var xs := Percentages(live);
    forall i | 0 <= i < |xs| ensures 0 <= xs[i] <= 100 {
      assert live[i] in live;
    }
    SumBounds(xs, 0, 100);
    var n := if |live| == 0 then 1 else |live|;
    QuotientBounds(Sum(xs), n);
  }

  lemma QuotientBounds(t: int, n: int)
    requires n > 0 && 0 <= t <= 100 * n
    ensures 0.0 <= t as real / n as real <= 100.0
  {
    var q := t as real / n as real;
    assert q * n as real == t as real;
  }

  /** Every row of the parent's list carries its goal's rollup, with an average in [0, 100]. */
  lemma ParentListAveragesInRange(s: Store, parentId: Id)
    requires PercentagesInRange(s.assignments)
    ensures forall v :: v in GetParentGoals(s, parentId) ==>
      && v == ViewOf(s, v.goal)
      && 0.0 <= v.averageProgress <= 100.0
      && (v.totalChildren == 0 ==> v.averageProgress == 0.0)
  {
    forall v | v in GetParentGoals(s, parentId)
      ensures 0.0 <= v.averageProgress <= 100.0 && (v.totalChildren == 0 ==> v.averageProgress == 0.0)
    {
      ParentAverageInRange(s, v.goal);
    }
  }
}
