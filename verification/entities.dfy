/**
 * The relational schema the services work on, as immutable records, and the
 * store that holds one table per entity. Every table is a sequence of rows in
 * insertion order; lookups return the first matching row.
 */
module Entities {
  import opened Wrappers
  import opened Tables

  type Id = string

  /** Milliseconds since the epoch (a JavaScript `Date`). */
  type Instant = int

  datatype Role = Parent | Child | Admin

  datatype GoalType = OneTime | Daily | Weekly | Monthly

  datatype GoalStatus = Active | Paused | Completed | Cancelled

  /** The acting user, as the authentication middleware hands it to a service. */
  datatype Actor = Actor(id: Id, role: Role)

  datatype Goal = Goal(
    id: Id,
    authorId: Id,
    authorRole: Role,
    title: string,
    description: Option<string>,
    kind: GoalType,
    status: GoalStatus,
    rewardCoins: int,
    durationMin: int,
    startDate: Option<Instant>,
    endDate: Option<Instant>,
    isRecurring: Option<bool>,
    progress: int,
    isDeleted: bool,
    createdAt: Instant)

  /**
   * One child's share of one goal; unique per (goalId, childId). `percentage` is
   * the child's progress as the progress engine reads and writes it; `progress`
   * is the column the scheduled jobs zero, which nothing else reads.
   */
  datatype Assignment = Assignment(goalId: Id, childId: Id, percentage: int, progress: int, isDeleted: bool)

  datatype AccountType = AdminAccount | Moderator | Viewer

  /** What a CHILD account may do. */
  datatype Permissions = Permissions(editProfile: bool, createGoals: bool, approveTasks: bool, deleteGoals: bool)

  datatype ChildProfile = ChildProfile(
    id: Id,
    userId: Id,
    parentId: Id,
    name: string,
    email: string,
    accountType: Option<AccountType>,
    permissions: Permissions,
    coins: int,
    completedTask: int,
    avatarId: Option<Id>,
    isDeleted: bool)

  datatype ParentProfile = ParentProfile(id: Id, userId: Id, name: string, phone: string, isDeleted: bool)

  /** A stored password: bcrypt is taken to be an ideal one-way function. */
  datatype PasswordHash = Hashed(secret: string)

  datatype User = User(
    id: Id,
    email: string,
    password: PasswordHash,
    role: Role,
    otp: Option<string>,
    otpExpiresAt: Option<Instant>,
    isVerified: bool,
    isDeleted: bool,
    resetOtp: Option<string>,
    resetExpiresAt: Option<Instant>)

  datatype Avatar = Avatar(id: Id, imgPath: Option<string>, description: string, price: int)

  /** A category of an avatar (HAIR, DRESS, ...), unique per (avatarId, name). */
  datatype Category = Category(id: Id, avatarId: Id, name: string)

  datatype Style = Style(id: Id, categoryId: Id, styleName: string, description: Option<string>)

  datatype Asset = Asset(id: Id, styleId: Id, imgPath: Option<string>, colorName: string, price: int, isStarter: bool)

  /** A child's ownership of an asset. */
  datatype ChildAsset = ChildAsset(childId: Id, assetId: Id)

  /** A child's ownership of an avatar. */
  datatype ChildAvatar = ChildAvatar(childId: Id, avatarId: Id)

  /** A notification row; only its link to an asset matters here. */
  datatype Notification = Notification(id: Id, assetId: Option<Id>)

  datatype Post = Post(id: Id, authorId: Id, authorRole: Role, title: Option<string>, content: string, description: Option<string>)

  datatype Comment = Comment(id: Id, postId: Id, authorId: Id, authorRole: Role, content: string, createdAt: Instant)

  datatype Store = Store(
    users: seq<User>,
    parents: seq<ParentProfile>,
    children: seq<ChildProfile>,
    goals: seq<Goal>,
    assignments: seq<Assignment>,
    avatars: seq<Avatar>,
    categories: seq<Category>,
    styles: seq<Style>,
    assets: seq<Asset>,
    childAssets: seq<ChildAsset>,
    ownerships: seq<ChildAvatar>,
    notifications: seq<Notification>,
    posts: seq<Post>,
    comments: seq<Comment>)

  /**
   * What a service can throw: an `AppError` with its HTTP status and message, a
   * database constraint failure, an update of a row that does not exist, or a
   * failed e-mail delivery.
   */
  datatype Error = AppError(status: int, message: string) | UniqueViolation | RecordNotFound | EmailFailed

  /** The store after an operation, and what the operation returned or threw. */
  datatype Step<+T> = Step(store: Store, result: Result<T, Error>)

  // ---- lookups used by several services ----

  function ChildByUser(s: Store, userId: Id): (r: Option<nat>)
    ensures r.Some? ==> r.value < |s.children| && s.children[r.value].userId == userId
    ensures r.None? ==> forall j :: 0 <= j < |s.children| ==> s.children[j].userId != userId
  {
    FirstIndex(s.children, (c: ChildProfile) => c.userId == userId)
  }

  function GoalById(s: Store, goalId: Id): (r: Option<nat>)
    ensures r.Some? ==> r.value < |s.goals| && s.goals[r.value].id == goalId
    ensures r.None? ==> forall j :: 0 <= j < |s.goals| ==> s.goals[j].id != goalId
  {
    FirstIndex(s.goals, (g: Goal) => g.id == goalId)
  }

  /** `goalAssignment.findUnique({ goalId_childId })`. */
  function AssignmentOf(s: Store, goalId: Id, childId: Id): (r: Option<nat>)
    ensures r.Some? ==> r.value < |s.assignments|
    ensures r.Some? ==> s.assignments[r.value].goalId == goalId && s.assignments[r.value].childId == childId
    ensures r.None? ==> forall j :: 0 <= j < |s.assignments| ==>
      !(s.assignments[j].goalId == goalId && s.assignments[j].childId == childId)
  {
    FirstIndex(s.assignments, (a: Assignment) => a.goalId == goalId && a.childId == childId)
  }

  function UserByEmail(s: Store, email: string): (r: Option<nat>)
    ensures r.Some? ==> r.value < |s.users| && s.users[r.value].email == email
    ensures r.None? ==> forall j :: 0 <= j < |s.users| ==> s.users[j].email != email
  {
    FirstIndex(s.users, (u: User) => u.email == email)
  }

  // ---- integrity the database schema guarantees ----

  /** Every assignment's goal exists (the foreign key goalAssignment.goalId). */
  ghost predicate GoalsLinked(s: Store) {
    forall i :: 0 <= i < |s.assignments| ==> HasGoal(s.goals, s.assignments[i].goalId)
  }

  ghost predicate HasGoal(goals: seq<Goal>, goalId: Id) {
    exists j :: 0 <= j < |goals| && goals[j].id == goalId
  }

  /** At most one assignment per (goalId, childId) (the compound unique key). */
  ghost predicate AssignmentsUnique(asg: seq<Assignment>) {
    forall i, j :: 0 <= i < j < |asg| ==> !(asg[i].goalId == asg[j].goalId && asg[i].childId == asg[j].childId)
  }

  /** Every stored percentage is a percentage. */
  ghost predicate PercentagesInRange(asg: seq<Assignment>) {
    forall i :: 0 <= i < |asg| ==> 0 <= asg[i].percentage <= 100
  }
}
