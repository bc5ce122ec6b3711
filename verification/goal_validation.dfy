/**
 * The request schemas in front of the goal service: what a create, update or
 * progress payload must satisfy before the service sees it. A payload is checked
 * field by field and every failing field is reported, in schema order, as zod
 * does; a payload that passes becomes the typed input of the service.
 */
module GoalValidation {
  import opened Wrappers
  import opened Schema
  import opened Entities
  import opened GoalProgress
  import opened GoalStore

  // ---- the two enums, by their stored names ----

  function GoalTypeName(k: GoalType): string {
    match k
    case OneTime => "ONE_TIME"
    case Daily => "DAILY"
    case Weekly => "WEEKLY"
    case Monthly => "MONTHLY"
  }

  /** `z.nativeEnum(GoalType)`: exactly the four names are accepted. */
  function ParseGoalType(name: string): (r: Option<GoalType>)
    ensures r.Some? ==> GoalTypeName(r.value) == name
    ensures (exists k :: GoalTypeName(k) == name) ==> r.Some?
  {
    if name == "ONE_TIME" then Some(OneTime)
    else if name == "DAILY" then Some(Daily)
    else if name == "WEEKLY" then Some(Weekly)
    else if name == "MONTHLY" then Some(Monthly)
    else None
  }

  function GoalStatusName(st: GoalStatus): string {
    match st
    case Active => "ACTIVE"
    case Paused => "PAUSED"
    case Completed => "COMPLETED"
    case Cancelled => "CANCELLED"
  }

  /** `z.nativeEnum(GoalStatus)`: exactly the four names are accepted. */
  function ParseGoalStatus(name: string): (r: Option<GoalStatus>)
    ensures r.Some? ==> GoalStatusName(r.value) == name
    ensures (exists st :: GoalStatusName(st) == name) ==> r.Some?
  {
    if name == "ACTIVE" then Some(Active)
    else if name == "PAUSED" then Some(Paused)
    else if name == "COMPLETED" then Some(Completed)
    else if name == "CANCELLED" then Some(Cancelled)
    else None
  }

  /** Printing an enum value and parsing it back gives the value. */
  lemma EnumNamesRoundTrip(k: GoalType, st: GoalStatus)
    ensures ParseGoalType(GoalTypeName(k)) == Some(k)
    ensures ParseGoalStatus(GoalStatusName(st)) == Some(st)
  {
  }

  // ---- payloads as they arrive ----

  datatype CreatePayload = CreatePayload(
    title: string,
    description: Option<string>,
    kind: string,
    status: Option<string>,
    rewardCoins: int,
    durationMin: int,
    startDate: Option<Instant>,
    endDate: Option<Instant>,
    assignedChildIds: seq<Id>,
    isRecurring: Option<bool>)

  datatype UpdatePayload = UpdatePayload(
    title: Option<string>,
    description: Option<string>,
    kind: Option<string>,
    status: Option<string>,
    rewardCoins: Option<int>,
    durationMin: Option<int>,
    startDate: Option<Instant>,
    endDate: Option<Instant>,
    assignedChildIds: Option<seq<Id>>,
    isDeleted: Option<bool>,
    isRecurring: Option<bool>)

  predicate BadStatus(status: Option<string>) {
    status.Some? && ParseGoalStatus(status.value).None?
  }

  /** `createGoalSchema`: the fields that fail, in schema order. */
  function CreateIssues(p: CreatePayload): (r: seq<string>)
    ensures "title" in r <==> Utf16Len(p.title) < 1
    ensures "type" in r <==> ParseGoalType(p.kind).None?
    ensures "status" in r <==> BadStatus(p.status)
    ensures "rewardCoins" in r <==> p.rewardCoins < 0
    ensures "durationMin" in r <==> p.durationMin < 1
    ensures "assignedChildIds" in r <==> |p.assignedChildIds| < 1
    ensures r == [] <==>
      Utf16Len(p.title) >= 1 && ParseGoalType(p.kind).Some? && !BadStatus(p.status)
      && p.rewardCoins >= 0 && p.durationMin >= 1 && |p.assignedChildIds| >= 1
  {
    Issue(Utf16Len(p.title) < 1, "title")
    + Issue(ParseGoalType(p.kind).None?, "type")
    + Issue(BadStatus(p.status), "status")
    + Issue(p.rewardCoins < 0, "rewardCoins")
    + Issue(p.durationMin < 1, "durationMin")
    + Issue(|p.assignedChildIds| < 1, "assignedChildIds")
  }

  /** A create payload that passes becomes the service's draft, field for field. */
  function ValidateCreate(p: CreatePayload): (r: Result<GoalDraft, seq<string>>)
    ensures r.Err? <==> CreateIssues(p) != []
    ensures r.Err? ==> r.error == CreateIssues(p)
    ensures r.Ok? ==>
      && r.value.title == p.title && r.value.description == p.description
      && GoalTypeName(r.value.kind) == p.kind
      && (r.value.status.Some? <==> p.status.Some?)
      && (r.value.status.Some? ==> GoalStatusName(r.value.status.value) == p.status.value)
      && r.value.rewardCoins == p.rewardCoins && r.value.durationMin == p.durationMin
      && r.value.startDate == p.startDate && r.value.endDate == p.endDate
      && r.value.assignedChildIds == p.assignedChildIds && r.value.isRecurring == p.isRecurring
  {
    var issues := CreateIssues(p);
    if issues != [] then Err(issues)
    else
      Ok(GoalDraft(p.title, p.description, ParseGoalType(p.kind).value,
                   if p.status.Some? then ParseGoalStatus(p.status.value) else None,
                   p.rewardCoins, p.durationMin, p.startDate, p.endDate, p.assignedChildIds, p.isRecurring))
  }

  /** `updateGoalSchema`: every field optional, the bounds still apply to the ones sent. */
  function UpdateIssues(p: UpdatePayload): (r: seq<string>)
    ensures "type" in r <==> p.kind.Some? && ParseGoalType(p.kind.value).None?
    ensures "status" in r <==> BadStatus(p.status)
    ensures "rewardCoins" in r <==> p.rewardCoins.Some? && p.rewardCoins.value < 0
    ensures "durationMin" in r <==> p.durationMin.Some? && p.durationMin.value < 1
    ensures |r| <= 4
  {
    Issue(p.kind.Some? && ParseGoalType(p.kind.value).None?, "type")
    + Issue(BadStatus(p.status), "status")
    + Issue(p.rewardCoins.Some? && p.rewardCoins.value < 0, "rewardCoins")
    + Issue(p.durationMin.Some? && p.durationMin.value < 1, "durationMin")
  }

  /** An update payload that passes becomes the service's patch, field for field. */
  function ValidateUpdate(p: UpdatePayload): (r: Result<GoalPatch, seq<string>>)
    ensures r.Err? <==> UpdateIssues(p) != []
    ensures r.Ok? ==>
      && r.value.title == p.title && r.value.description == p.description
      && (r.value.kind.Some? <==> p.kind.Some?)
      && (r.value.kind.Some? ==> GoalTypeName(r.value.kind.value) == p.kind.value)
      && (r.value.status.Some? <==> p.status.Some?)
      && (r.value.status.Some? ==> GoalStatusName(r.value.status.value) == p.status.value)
      && r.value.rewardCoins == p.rewardCoins && r.value.durationMin == p.durationMin
      && r.value.startDate == p.startDate && r.value.endDate == p.endDate
      && r.value.assignedChildIds == p.assignedChildIds
      && r.value.isDeleted == p.isDeleted && r.value.isRecurring == p.isRecurring
  {
    var issues := UpdateIssues(p);
    if issues != [] then Err(issues)
    else
      Ok(GoalPatch(p.title, p.description,
                   if p.kind.Some? then ParseGoalType(p.kind.value) else None,
                   if p.status.Some? then ParseGoalStatus(p.status.value) else None,
                   p.rewardCoins, p.durationMin, p.startDate, p.endDate,
                   p.assignedChildIds, p.isDeleted, p.isRecurring))
  }

  /** `updateProgressSchema`: at least one minute. */
  function ValidateProgress(minutesCompleted: int): (r: Result<int, seq<string>>)
    ensures r.Ok? <==> minutesCompleted >= 1
    ensures r.Ok? ==> r.value == minutesCompleted
    ensures r.Err? ==> r.error == ["minutesCompleted"]
  {
    if minutesCompleted < 1 then Err(["minutesCompleted"]) else Ok(minutesCompleted)
  }

  // ---- what validation buys the service ----

  /** A goal created from a validated payload has a positive duration, a non-negative reward and at least one assignee. */
  lemma ValidatedCreateIsWellFormed(s: Store, author: Actor, p: CreatePayload, newId: Id, now: Instant)
    requires GoalById(s, newId).None?
    requires ValidateCreate(p).Ok?
    requires CreateGoal(s, author, ValidateCreate(p).value, newId, now).result.Ok?
    ensures
      var o := CreateGoal(s, author, ValidateCreate(p).value, newId, now);
      && o.result.value.durationMin >= 1 && o.result.value.rewardCoins >= 0
      && |o.store.assignments| > |s.assignments|
  {
  }

  /** A validated patch keeps a well-formed goal well-formed. */
  lemma ValidatedPatchKeepsBounds(g: Goal, p: UpdatePayload)
    requires ValidateUpdate(p).Ok?
    requires g.durationMin >= 1 && g.rewardCoins >= 0
    ensures Patched(g, ValidateUpdate(p).value).durationMin >= 1
    ensures Patched(g, ValidateUpdate(p).value).rewardCoins >= 0
  {
  }

  /** A validated progress report never meets the service's own minutes check. */
  lemma ValidatedProgressPassesMinutesCheck(s: Store, goalId: Id, userId: Id, minutesCompleted: int)
    requires GoalsLinked(s) && ValidateProgress(minutesCompleted).Ok?
    ensures UpdateProgress(s, goalId, userId, ValidateProgress(minutesCompleted).value).result
      != Err(AppError(400, "minutesCompleted must be > 0"))
  {
  }
}
