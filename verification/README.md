# Family goals and rewards: a Dafny model of the service core

The system is a back end for families. A PARENT account creates CHILD accounts
and sets them goals: one-time, daily, weekly or monthly tasks with a duration in
minutes and a reward in coins. Children report minutes, or start a timer that
reports the remaining minutes when it goes off. The progress engine keeps a
percentage per child and goal. It pays the reward on the report that takes a
child to 100%, and it rolls the children's percentages up into the goal. Scheduled
jobs restart recurring goals and cancel goals past their end date.

Around this engine sit four smaller parts:

- the account service: registration with an e-mailed one-time code (OTP),
  verification, login, password change and reset, and child accounts;
- an avatar catalog whose deletes cascade from avatar to category to style to asset;
- a community board of posts and comments with an author-or-admin rule;
- the request schemas that bound what reaches these services.

The model is one immutable `Store` (module `Entities`) with one table per entity.
Each table is a sequence of rows, and a lookup finds the first matching row.
Every service operation is a pure function from a store and its inputs to a
`Step`: the new store, and either a result or the error the service throws. Each
HTTP error is `AppError(status, message)` with the service's own status and
message. A database constraint failure is `UniqueViolation`, an update of a
missing row is `RecordNotFound`, and a failed e-mail is `EmailFailed`.
The two roundings of the progress engine, `Math.round((p / 100) * d)` and
`Math.round((m / d) * 100)`, are modelled as round half up of the exact
rational (`Numeric.RoundDiv`). JavaScript computes the quotient in doubles
first, so at an exact half the code can land one below the model (see
"## Left out").

Modules, following the source files:

| module | models |
|---|---|
| `GoalProgress`, `GoalProgressFacts` | `updateProgress` in `goal.service.ts` |
| `GoalTimer` | `startTask` and its timer table in `goal.service.ts` |
| `GoalStore`, `GoalStoreFacts` | `createGoal`, `updateGoal`, `getParentGoals`, `getChildGoals` |
| `GoalValidation` | `goal.validation.ts` |
| `CronJobs` | `CronJobs.ts` |
| `AuthService`, `AuthFacts` | `auth.service.ts` |
| `AuthValidation` | `auth.validation.ts` |
| `AvatarCatalog`, `AvatarCatalogFacts`, `AvatarCascadeFacts` | `avatar.service.ts` |
| `PostService`, `PostFacts` | `post.service.ts` |
| `PostValidation` | `post.validation.ts` |
| `Wrappers`, `Numeric`, `Tables`, `Schema`, `Entities` | shared: `Option`/`Result`, exact rounding, table helpers, the one-field issue report and JavaScript string length, the schema |

Three behaviours of the code deserve a note:

- The scheduled jobs write a `progress` column on assignments, but the engine
  reads `percentage` (CronJobs.ts:23, 51, 88 against goal.service.ts:300). The
  assignment row has both columns, and every reset takes the column it zeroes as
  a parameter: `ProgressColumn` is the code as written, `PercentageColumn` what
  it evidently means. As written, a reset never reaches the engine (see
  "## Findings").
- A CHILD author's assignee list is checked against the child's user id
  (goal.service.ts:76, 139), while assignments are keyed by child profile id.
  `GoalStoreFacts.ChildCreatedGoalNotFoundByProgress` shows the consequence in
  a store without the foreign key from an assignment to a child profile. The
  `child: true` include (goal.service.ts:228) suggests that key exists, and then
  the create itself would more likely fail.
- `updateProgress` rejects only PAUSED goals, and `startTask` also rejects
  COMPLETED ones. A daily goal that every child has finished becomes COMPLETED.
  The nightly job resets only ACTIVE goals, so such a goal never recurs
  (`CronJobs.CompletedDailyGoalIsNotReset`).

## Model

| member | source | states |
|---|---|---|
| `GoalProgress.UpdateProgress` | src/app/modules/Goal/goal.service.ts:265-372 | The guards run in source order: no child profile 404, no assignment 404, PAUSED 400, minutes ≤ 0 400, duration ≤ 0 400. Any failure leaves the store unchanged, and a COMPLETED goal is not refused. A success is the `Commit` of the located rows, and only assignments, goals and children change. |
| `GoalProgress.Commit` | src/app/modules/Goal/goal.service.ts:299-371 | The minutes and percentage reported are exactly `AdvanceBy` of the stored percentage, the duration and the report. The new percentage is at most 100, and it is not negative when the old one was not. A child already at ≥ 100 stays at 100. The coins and task count move by the goal's reward exactly when the call crosses from below 100 to 100, and `rewardGiven` reports that amount or 0. The rollup is the rounded mean, count and completed count over the goal's non-deleted assignments after the write. The status becomes COMPLETED iff all of them are ≥ 100, and is otherwise kept. |
| `GoalProgress.AdvanceBy` | src/app/modules/Goal/goal.service.ts:300-308 | The minutes credited are min(`MinutesOf` the stored percentage + the report, duration), and the new percentage is `PercentOf` those minutes. The stored percentage is at most 100, and a child at 100% stays there. |
| `GoalProgress.MinutesOf` | src/app/modules/Goal/goal.service.ts:300 | The minutes are p·d/100 rounded half up, pinned by 200·m ≤ 2·p·d + 100 < 200·m + 200. They lie in [0, duration] for a percentage in [0, 100], and reach the duration from 100% up. |
| `GoalProgress.PercentOf` | src/app/modules/Goal/goal.service.ts:308 | The percentage is m·100/d rounded half up, pinned by 2·d·p ≤ 200·m + d < 2·d·p + 2·d. It lies in [0, 100] for minutes in [0, duration], and the full duration is exactly 100. |
| `GoalProgress.Locate` | src/app/modules/Goal/goal.service.ts:272-288 | It finds the child by user id, its assignment to the goal, and the goal; it is absent exactly when the child or the assignment is missing. |
| `GoalProgressFacts.UpdateProgressKeepsKeys` | src/app/modules/Goal/goal.service.ts:314-360 | An update never changes an id, a foreign key, a deleted flag or a reward amount, so every assignment stays linked to its goal. |
| `GoalProgressFacts.UpdateProgressKeepsPercentages` | src/app/modules/Goal/goal.service.ts:300-319 | Every stored percentage stays in [0, 100]. |
| `GoalProgressFacts.UpdateProgressKeepsUniqueness` | src/app/modules/Goal/goal.service.ts:314-319 | The (goalId, childId) key of assignments stays unique. |
| `GoalProgressFacts.UpdateProgressRewardStep` | src/app/modules/Goal/goal.service.ts:309-311 | One update rewards the child at most once, only when the percentage reaches 100, and never when it was already ≥ 100. |
| `GoalProgressFacts.ReplayRewardsAtMostOnce` | src/app/modules/Goal/goal.service.ts:309-360 | Over any sequence of reports by one child on one goal, failures included, the balance and task count move at most once, and not at all if the child had already finished. |
| `GoalProgressFacts.AdvanceNeverLowers` | src/app/modules/Goal/goal.service.ts:300-308 | Reporting minutes never lowers a stored percentage in [0, 100], despite the double rounding. |
| `GoalProgressFacts.RoundedMeanInRange` | src/app/modules/Goal/goal.service.ts:330-334 | The rounded mean of percentages is a percentage. |
| `GoalProgressFacts.RollupOfFinishedAndUnstarted` | src/app/modules/Goal/goal.service.ts:327-336 | With k of n children at 100% and the rest at 0%, the rollup is round(100·k/n), and the goal is complete iff k = n. |
| `GoalProgressFacts.SmallReportIsLost` | src/app/modules/Goal/goal.service.ts:300-308 | On a goal longer than 200·m minutes, a report of m minutes from 0% is acknowledged as m minutes but stores 0%. |
| `GoalProgressFacts.CompletionBeforeFullDuration` | src/app/modules/Goal/goal.service.ts:300-311 | From 0%, a report of m minutes on a goal of d > m minutes logs m minutes. It completes the goal, at exactly 100%, iff 200·m + d ≥ 200·d, that is from 99.5% of the duration. |
| `GoalProgressFacts.CompletionAtNinetyNineAndAHalf` | src/app/modules/Goal/goal.service.ts:300-311 | On a 200-minute goal, 199 minutes from 0% store 100%. |
| `GoalTimer.StartTask` | src/app/modules/Goal/goal.service.ts:8-57 | The guards run in order: 404 child, 404 assignment, 400 PAUSED, 400 COMPLETED, 400 no duration. When nothing remains, it reports `alreadyCompleted` and the timer table is unchanged. Otherwise the table holds exactly one timer under `goalId:childId`, which replaces any earlier one, for the remaining minutes after `remaining·60000` ms. |
| `GoalTimer.Remaining` | src/app/modules/Goal/goal.service.ts:27-28 | The remaining minutes are the duration minus the minutes already stored, and never negative. |
| `GoalTimer.StartThenFireCompletes` | src/app/modules/Goal/goal.service.ts:27-56 | A started timer that goes off on an unchanged store brings the child to exactly 100% and clears its entry. |
| `GoalTimer.TimerKeyInjective` | src/app/modules/Goal/goal.service.ts:38 | Two `goalId:childId` keys with colon-free goal ids are equal only for the same goal and child. |
| `GoalStore.CreateGoal` | src/app/modules/Goal/goal.service.ts:59-111 | A CHILD author needs a profile (404), the createGoals permission (403), and only its own user id as assignee (403). It succeeds iff these pass and no assignee is listed twice. On success the goal is ACTIVE at 0 progress, authored by the caller, with the payload's title, description, type, dates, recurrence, reward and duration. It has one fresh 0% assignment per listed id, and nothing is written on failure. |
| `GoalStore.UpdateGoal` | src/app/modules/Goal/goal.service.ts:114-203 | It fails 404 for a missing goal and 400 for a deleted one. A CHILD needs a profile (404), must be assigned (403), and needs createGoals (403). The first forbidden field a child sends is refused by name (403). It succeeds iff every guard passes and a PARENT's new assignee list has no repeated id. A PARENT with isDeleted = true marks every assignment deleted. A PARENT with a new list replaces the assignments with fresh ones. |
| `GoalStore.Patched` | src/app/modules/Goal/goal.service.ts:168-181 | A field sent is written and a field left out is kept, the start and end dates included. Ids, author, progress and creation time never change. |
| `GoalStore.FirstForbidden` | src/app/modules/Goal/goal.service.ts:149-163 | It reports nothing exactly when the patch carries none of the eight fields a child may not send. |
| `GoalStore.GetParentGoals` | src/app/modules/Goal/goal.service.ts:222-242 | It returns exactly the parent's non-deleted goals. Each row is `ViewOf` its goal: only its non-deleted assignments, with their rollup. |
| `GoalStore.ViewOf` | src/app/modules/Goal/goal.service.ts:233-241 | The rollup has the total, the count of percentages ≥ 100 and the child count, and an unrounded average whose product with max(count, 1) is the total. |
| `GoalStore.GetChildGoals` | src/app/modules/Goal/goal.service.ts:246-262 | It fails 404 for an unknown child. Otherwise it returns exactly the child's non-deleted assignments, each joined with its goal. |
| `GoalStoreFacts.CreateGoalKeepsIntegrity` | src/app/modules/Goal/goal.service.ts:84-100 | Creating a goal keeps assignments linked, keys unique and percentages in range. |
| `GoalStoreFacts.UpdateGoalKeepsIntegrity` | src/app/modules/Goal/goal.service.ts:167-203 | Editing a goal keeps assignments linked, keys unique and percentages in range. |
| `GoalStoreFacts.ReassignResetsProgress` | src/app/modules/Goal/goal.service.ts:190-199 | After a reassignment the goal's assignments are exactly fresh, unstarted rows for the new list, in its order. |
| `GoalStoreFacts.ChildCreatedGoalNotFoundByProgress` | src/app/modules/Goal/goal.service.ts:76 | When a child's profile id differs from its user id, the goal it creates for itself is never found by `updateProgress`. |
| `GoalStoreFacts.ParentAverageInRange` | src/app/modules/Goal/goal.service.ts:235-237 | The parent's unrounded average lies in [0, 100], and is 0 when no child is assigned. |
| `GoalStoreFacts.ParentListAveragesInRange` | src/app/modules/Goal/goal.service.ts:222-242 | Every row of the parent's list is its goal's view, with an average in [0, 100] that is 0 when no child is assigned. |
| `GoalValidation.ParseGoalType` | src/app/modules/Goal/goal.validation.ts:8 | Only the four type names parse, each to its own type. |
| `GoalValidation.ParseGoalStatus` | src/app/modules/Goal/goal.validation.ts:9 | Only the four status names parse, each to its own status. |
| `GoalValidation.EnumNamesRoundTrip` | src/app/modules/Goal/goal.validation.ts:8-9 | Every type and status name parses back to the value it names. |
| `GoalValidation.CreateIssues` | src/app/modules/Goal/goal.validation.ts:4-20 | A field is reported iff its bound fails: a non-empty title, a known type, a known status when present, reward ≥ 0, duration ≥ 1, and at least one assignee. |
| `GoalValidation.ValidateCreate` | src/app/modules/Goal/goal.validation.ts:4-20 | A payload passes iff nothing is reported, and then becomes the service's draft field for field. |
| `GoalValidation.UpdateIssues` | src/app/modules/Goal/goal.validation.ts:24-41 | Every field is optional; a type, status, reward or duration that is present must still meet its bound. |
| `GoalValidation.ValidateUpdate` | src/app/modules/Goal/goal.validation.ts:24-41 | A patch passes iff nothing is reported, and then becomes the service's patch field for field. |
| `GoalValidation.ValidateProgress` | src/app/modules/Goal/goal.validation.ts:45-47 | A report passes iff it has at least one minute. |
| `GoalValidation.ValidatedCreateIsWellFormed` | src/app/modules/Goal/goal.validation.ts:4-20 | A goal created from a validated payload has a positive duration, a non-negative reward and at least one assignment. |
| `GoalValidation.ValidatedPatchKeepsBounds` | src/app/modules/Goal/goal.validation.ts:24-41 | A validated patch keeps a goal's duration positive and its reward non-negative. |
| `GoalValidation.ValidatedProgressPassesMinutesCheck` | src/app/modules/Goal/goal.validation.ts:45-47 | A validated report never hits the service's own "minutesCompleted must be > 0" check. |
| `CronJobs.DaysBetween` | src/helpers/CronJobs.ts:7-10 | The result is the number of whole days between the two instants, in either order, and 0 for equal instants. |
| `CronJobs.DaysBetweenSymmetric` | src/helpers/CronJobs.ts:7-10 | Swapping the two instants gives the same number of days. |
| `CronJobs.DaysBetweenOfWholeDays` | src/helpers/CronJobs.ts:7-10 | Instants k days and part of a day apart are k days apart. |
| `CronJobs.DailyReset` | src/helpers/CronJobs.ts:15-24 | An assignment has the chosen column zeroed iff its goal is DAILY, ACTIVE and not deleted. Every other assignment and every goal is unchanged. |
| `CronJobs.PeriodicReset` | src/helpers/CronJobs.ts:35-61 | An ACTIVE, non-deleted goal of the job's type, whose age in days is a multiple of the period, has its progress reset. All its assignments, deleted ones included, have the chosen column zeroed. Nothing else changes. |
| `CronJobs.ExpirySweep` | src/helpers/CronJobs.ts:108-117 | An ACTIVE, non-deleted goal whose end date is strictly before now becomes CANCELLED. Goals with no end date, another status, or the deleted flag are unchanged, and so is every other table. |
| `CronJobs.DailyResetIdempotent` | src/helpers/CronJobs.ts:15-24 | Running the nightly job twice is running it once. |
| `CronJobs.PeriodicResetIdempotent` | src/helpers/CronJobs.ts:35-98 | Running the weekly or monthly job twice at the same instant is running it once. |
| `CronJobs.ExpirySweepAbsorbs` | src/helpers/CronJobs.ts:108-117 | A sweep after an earlier or equal one is the later sweep alone; in particular the sweep is idempotent. |
| `CronJobs.ExpirySweepLeavesNoExpired` | src/helpers/CronJobs.ts:108-117 | After the sweep no goal is still ACTIVE and live past its end date. |
| `CronJobs.JobsKeepIntegrity` | src/helpers/CronJobs.ts:15-117 | Every job keeps assignments linked, keys unique and percentages in range. |
| `CronJobs.WeeklyResetOnAnniversary` | src/helpers/CronJobs.ts:47-57 | A weekly goal created a whole number of weeks and part of a day ago is reset with all its assignments. |
| `CronJobs.WeeklyResetOffAnniversary` | src/helpers/CronJobs.ts:47-48 | A weekly goal on any other day of its week is left alone. |
| `CronJobs.CompletedDailyGoalIsNotReset` | src/helpers/CronJobs.ts:15-24 | A daily goal that `updateProgress` marked COMPLETED is not restarted by the nightly job. |
| `CronJobs.DailyResetReopensReward` | src/helpers/CronJobs.ts:15-24 | With the percentage column reset, as the job evidently means, logging an active daily goal's whole duration after the nightly run pays its reward again. |
| `CronJobs.WrittenResetKeepsPercentages` | src/helpers/CronJobs.ts:15-98 | As written (the `progress` column), the nightly and periodic jobs leave every assignment's percentage as it was. |
| `CronJobs.WrittenResetPaysNoReward` | src/helpers/CronJobs.ts:15-24 | As written, a child at 100% on an active daily goal who logs the whole duration after the nightly run is accepted and paid nothing. |
| `AuthService.Otp` | src/app/modules/Auth/auth.service.ts:30 | A code is five decimal digits whose value is 10000 plus the random draw, so it lies in [10000, 99999]. |
| `AuthService.OtpInjective` | src/app/modules/Auth/auth.service.ts:30 | Different draws give different codes. |
| `AuthService.DigitsRoundTrip` | src/app/modules/Auth/auth.service.ts:30 | Reading back the decimal digits of a number gives the number. |
| `AuthService.CreateUser` | src/app/modules/Auth/auth.service.ts:15-66 | An existing e-mail is a 409 "User Already Exist". A failed e-mail rolls the whole registration back. Otherwise it adds an unverified PARENT user, with the code and an expiry five minutes on, and its parent profile. |
| `AuthService.ResendOtp` | src/app/modules/Auth/auth.service.ts:69-100 | It fails 404 for an unknown e-mail and 400 for a verified user. Otherwise only the code and its expiry are replaced, and they stay stored even when the e-mail fails. |
| `AuthService.VerifyOtp` | src/app/modules/Auth/auth.service.ts:102-141 | The checks run in order: 404 unknown, 400 verified, 401 wrong code, 401 expiry strictly before now. A missing expiry passes. Success marks the user verified and clears the code and its expiry. |
| `AuthService.LoginUser` | src/app/modules/Auth/auth.service.ts:143-227 | The checks run in order: 404 for a missing or deleted user, 401 unverified, 401 wrong password. Success returns a session carrying the user's id, e-mail and role, and no write happens. |
| `AuthService.ChangePassword` | src/app/modules/Auth/auth.service.ts:309-335 | It fails 404 for an unknown user and 401 for a wrong old password. Otherwise only the password changes. |
| `AuthService.RequestPasswordReset` | src/app/modules/Auth/auth.service.ts:338-361 | It fails 404 for an unknown e-mail. Otherwise it stores a reset code with a five-minute expiry, and the code stays stored even when the e-mail fails. |
| `AuthService.SubmittedCode` | src/app/modules/Auth/auth.service.ts:370-377 | The submitted code is `otp`, or `opt` when `otp` is absent or empty. |
| `AuthService.ResetPassword` | src/app/modules/Auth/auth.service.ts:370-397 | It fails 404 for an unknown user, 401 for a missing or wrong code, and 401 for a missing or past expiry. Success replaces the password and clears the reset code and its expiry. |
| `AuthService.ServicePermissions` | src/app/modules/Auth/auth.service.ts:455-458 | A permission left out defaults to true for editProfile and false for the other three. |
| `AuthService.CreateChild` | src/app/modules/Auth/auth.service.ts:398-468 | An existing e-mail is a 409, then a missing parent is a 404. Otherwise it adds a verified CHILD user and a profile under the parent, with the service's permission defaults. |
| `AuthService.DeleteChild` | src/app/modules/Auth/auth.service.ts:490-507 | It soft-deletes the child profile and then its user. A missing profile is a "record not found" with no write; a missing user leaves the profile deleted and reports the error. |
| `AuthService.DeleteParent` | src/app/modules/Auth/auth.service.ts:508-529 | It fails 404 for an unknown parent. Otherwise it soft-deletes the parent profile and its user together, and a missing user writes nothing. |
| `AuthService.GetAllChild` | src/app/modules/Auth/auth.service.ts:530-550 | It fails 404 for a user without a parent profile. Otherwise it returns exactly that parent's non-deleted children. |
| `AuthFacts.VerifyOnlyOnce` | src/app/modules/Auth/auth.service.ts:110-131 | A second verification, with any code at any time, reports the account as already verified. |
| `AuthFacts.ResetCodeUsedOnce` | src/app/modules/Auth/auth.service.ts:377-394 | After a successful reset, any further reset attempt is an invalid code. |
| `AuthFacts.RegisterVerifyLogin` | src/app/modules/Auth/auth.service.ts:15-172 | Registering, entering the mailed code within five minutes and logging in all succeed. Logging in before verifying is refused. |
| `AuthFacts.LateCodeExpires` | src/app/modules/Auth/auth.service.ts:30-31 | The right code presented more than five minutes after registration is refused as expired. |
| `AuthFacts.ResentCodeVerifies` | src/app/modules/Auth/auth.service.ts:82-97 | A resent code verifies within five minutes even when the e-mail failed. |
| `AuthFacts.ResetReplacesPassword` | src/app/modules/Auth/auth.service.ts:338-397 | For a verified, live user, requesting a reset and presenting the code in time makes the new password the one that logs in. |
| `AuthFacts.NewChildLogsIn` | src/app/modules/Auth/auth.service.ts:416 | A new child account logs in with its password at once, with no code. |
| `AuthFacts.DeletedParentCannotLogIn` | src/app/modules/Auth/auth.service.ts:508-529 | After a parent is deleted, its account cannot log in. |
| `AuthFacts.ChangePasswordThenLogin` | src/app/modules/Auth/auth.service.ts:143-335 | After a password change, a verified, live user logs in under its own id with the new password, and a different old password is refused as incorrect. |
| `AuthFacts.DeletedChildCannotLogIn` | src/app/modules/Auth/auth.service.ts:143-507 | After a child is deleted, its account's e-mail finds no user at login, whatever the password. |
| `AuthValidation.ValidateRegistration` | src/app/modules/Auth/auth.validation.ts:3-8 | A registration passes iff, in UTF-16 code units, the password has ≥ 6, the name ≥ 1 and the phone ≥ 10. Each failing field is reported. |
| `AuthValidation.ValidateLogin` | src/app/modules/Auth/auth.validation.ts:12-15 | A login passes iff the password has at least 6 UTF-16 code units. |
| `AuthValidation.ValidateChangePassword` | src/app/modules/Auth/auth.validation.ts:19-26 | A change passes iff both passwords have at least 6 UTF-16 code units. |
| `AuthValidation.ValidateReset` | src/app/modules/Auth/auth.validation.ts:38-44 | A reset passes iff the code has exactly 5 UTF-16 code units and the new password at least 6. |
| `AuthValidation.ParseAccountType` | src/app/modules/Auth/auth.validation.ts:51 | Exactly the three account type names parse, each to its own type. |
| `AuthValidation.ValidateChildForm` | src/app/modules/Auth/auth.validation.ts:54-87 | A form passes iff the password has ≥ 6 UTF-16 code units, the name ≥ 1, the gender (if present) is MALE or FEMALE, and the account type (if present) is known. Missing fields get the schema defaults: MODERATOR, editProfile, createGoals and approveTasks true, deleteGoals false. `unlockRewards` is accepted and dropped. |
| `AuthValidation.ValidateChildUpdate` | src/app/modules/Auth/auth.validation.ts:90-107 | An update passes iff the name is non-empty and the gender, if present, is known. |
| `AuthValidation.IssuedCodePassesResetSchema` | src/app/modules/Auth/auth.validation.ts:38-44 | Every code the service issues passes the reset schema's length check. |
| `AuthValidation.SchemaDefaultsOverrideService` | src/app/modules/Auth/auth.validation.ts:79-86 | A form with no permissions creates a child that may create goals and approve tasks, although the service's own defaults would forbid both. |
| `AuthValidation.RegistrationPasswordPassesLogin` | src/app/modules/Auth/auth.validation.ts:3-15 | A password that passes registration passes login. |
| `AvatarCatalog.CreateAvatar` | src/app/modules/avatar/avatar.service.ts:15-29 | It appends the avatar, with the price defaulting to 0. |
| `AvatarCatalog.CreateCategory` | src/app/modules/avatar/avatar.service.ts:31-54 | It fails 404 for a missing avatar and 409 when the avatar already has a category of that name. Otherwise it appends the category. |
| `AvatarCatalog.CreateStyle` | src/app/modules/avatar/avatar.service.ts:57-68 | It fails 404 for a missing category. Otherwise it appends the style. |
| `AvatarCatalog.CreateAsset` | src/app/modules/avatar/avatar.service.ts:70-89 | It fails 404 for a missing style. Otherwise it appends the asset with the price defaulting to 0 and isStarter to false. |
| `AvatarCatalog.DeleteAsset` | src/app/modules/avatar/avatar.service.ts:93-115 | It fails 404 for a missing asset. A failed image delete is a 400 before any write. Otherwise the asset and every owned copy and notification of it go together. |
| `AvatarCatalog.DeleteStyle` | src/app/modules/avatar/avatar.service.ts:117-134 | It fails 404 for a missing style. A finished delete leaves no asset of the style and not the style itself. Every outcome, a failure part-way included, only removes rows soundly. Its frame and its success condition are `AvatarCascadeFacts.DeleteStyleFrame` and `AvatarCascadeFacts.DeleteStyleSucceedsIff`. |
| `AvatarCatalog.DeleteCategory` | src/app/modules/avatar/avatar.service.ts:136-157 | It fails 404 for a missing category. A finished delete leaves none of its styles and not the category. Every outcome removes soundly. Its frame and its success condition are `AvatarCascadeFacts.DeleteCategoryFrame` and `AvatarCascadeFacts.DeleteCategorySucceedsIff`. |
| `AvatarCatalog.DeleteAvatar` | src/app/modules/avatar/avatar.service.ts:159-208 | It fails 404 for a missing avatar. A finished delete leaves no category of the avatar, clears the avatar choice of the children that had it, and removes its ownerships and the avatar. Its frame, its success condition and the ignored avatar image are `AvatarCascadeFacts.DeleteAvatarFrame`, `AvatarCascadeFacts.DeleteAvatarSucceedsIff` and `AvatarCascadeFacts.DeleteAvatarIgnoresOwnImage`. |
| `AvatarCatalogFacts.DeletesKeepLinks` | src/app/modules/avatar/avatar.service.ts:93-208 | Every delete keeps the catalog free of dangling references, even when it stops part-way. |
| `AvatarCatalogFacts.CreateCategoryKeepsNamesUnique` | src/app/modules/avatar/avatar.service.ts:38-46 | Each avatar keeps at most one category per name. |
| `AvatarCatalogFacts.CreateAssetKeepsLinks` | src/app/modules/avatar/avatar.service.ts:70-89 | An asset is only ever created under an existing style, so the catalog stays linked. |
| `AvatarCatalogFacts.DeleteAvatarRemovesTree` | src/app/modules/avatar/avatar.service.ts:159-208 | A finished avatar delete removes every category, style and asset under it, and every owned copy or notification of those assets. |
| `AvatarCatalog.AssetIdsOf` | src/app/modules/avatar/avatar.service.ts:118-127 | The ids listed are exactly those of the style's assets, with no repeat while asset ids are unique. |
| `AvatarCatalog.StyleIdsOf` | src/app/modules/avatar/avatar.service.ts:137-150 | The ids listed are exactly those of the category's styles, with no repeat while style ids are unique. |
| `AvatarCatalog.CategoryIdsOf` | src/app/modules/avatar/avatar.service.ts:160-189 | The ids listed are exactly those of the avatar's categories, with no repeat while category ids are unique. |
| `AvatarCascadeFacts.DeleteAssetFrame` | src/app/modules/avatar/avatar.service.ts:93-115 | Finished or not, an asset delete keeps the avatars, categories and styles, every other asset, and every reference to a kept row. |
| `AvatarCascadeFacts.DeleteStyleFrame` | src/app/modules/avatar/avatar.service.ts:117-134 | Finished or stopped part-way, a style delete keeps the avatars and categories, every other style, every asset not listed under the style, and every reference to a kept row. |
| `AvatarCascadeFacts.DeleteCategoryFrame` | src/app/modules/avatar/avatar.service.ts:136-157 | Finished or stopped part-way, a category delete keeps the avatars, every other category, every style not listed under it, every asset outside those styles, and every reference to a kept row. |
| `AvatarCascadeFacts.DeleteAvatarFrame` | src/app/modules/avatar/avatar.service.ts:159-208 | Finished or stopped part-way, an avatar delete keeps every other avatar, every category not listed under it, every style and asset outside those categories, and every reference to a kept row. |
| `AvatarCascadeFacts.DeleteAssetsSucceedsIff` | src/app/modules/avatar/avatar.service.ts:127-129 | With unique keys, the loop over distinct, present asset ids finishes iff none of those assets has an image whose delete fails. |
| `AvatarCascadeFacts.DeleteStyleSucceedsIff` | src/app/modules/avatar/avatar.service.ts:117-134 | With unique keys, a style delete finishes iff the style exists and none of its assets has an image whose delete fails. |
| `AvatarCascadeFacts.DeleteStylesSucceedsIff` | src/app/modules/avatar/avatar.service.ts:150-152 | With unique keys, the loop over distinct, present style ids finishes iff no asset of those styles has an image whose delete fails. |
| `AvatarCascadeFacts.DeleteCategorySucceedsIff` | src/app/modules/avatar/avatar.service.ts:136-157 | With unique keys, a category delete finishes iff the category exists and no asset of its styles has an image whose delete fails. |
| `AvatarCascadeFacts.DeleteCategoriesSucceedsIff` | src/app/modules/avatar/avatar.service.ts:189-191 | With unique keys, the loop over distinct, present category ids finishes iff no asset under those categories has an image whose delete fails. |
| `AvatarCascadeFacts.DeleteAvatarSucceedsIff` | src/app/modules/avatar/avatar.service.ts:159-208 | With unique keys, an avatar delete finishes iff the avatar exists and no asset under its categories has an image whose delete fails. |
| `AvatarCascadeFacts.DeleteAvatarIgnoresOwnImage` | src/app/modules/avatar/avatar.service.ts:179-186 | A failed delete of an image no asset uses, such as the avatar's own, does not change whether an avatar delete finishes. |
| `PostService.CreatePost` | src/app/modules/Post/post.service.ts:8-18 | The post's author and role come from the caller, and its fields come from the payload. |
| `PostService.GetPostById` | src/app/modules/Post/post.service.ts:50-67 | It fails 404 iff the post is missing. Otherwise it returns the post with its comment count. |
| `PostService.UpdatePost` | src/app/modules/Post/post.service.ts:69-87 | It fails 404, then 403 unless the caller is ADMIN or the author. Success changes only the title, content and description that were sent. |
| `PostService.DeletePost` | src/app/modules/Post/post.service.ts:89-97 | The same guard applies. Success removes that post and no other row. |
| `PostService.AddComment` | src/app/modules/Post/post.service.ts:99-128 | It fails 404 iff the post is missing. Otherwise it appends a comment carrying the post, the caller's id and role, the content and the time. |
| `PostService.SortByTime` | src/app/modules/Post/post.service.ts:141 | The result is a permutation of the comments, oldest first. |
| `PostService.Window` | src/app/modules/Post/post.service.ts:139-140 | `skip`/`take` returns at most `limit` consecutive elements starting at `skip`, and exactly `limit` when that many remain. |
| `PostService.ListComments` | src/app/modules/Post/post.service.ts:130-157 | It fails 404 iff the post is missing. Otherwise it returns the page of the post's comments in time order, the total, and the page count `CeilDiv(total, limit)`. |
| `PostService.CeilDiv` | src/app/modules/Post/post.service.ts:155 | The page count is the least number of pages of `limit` that hold the total. |
| `PostService.DeleteComment` | src/app/modules/Post/post.service.ts:159-167 | It fails 404, then 403 unless the caller is ADMIN or the comment's author. Success removes that comment and no other row. |
| `PostFacts.UpdateThenGet` | src/app/modules/Post/post.service.ts:50-87 | Reading a post back after an edit returns the edited row with the same comment count. |
| `PostFacts.DeleteThenGet` | src/app/modules/Post/post.service.ts:50-97 | Reading a deleted post back is a 404. |
| `PostFacts.AddCommentAppends` | src/app/modules/Post/post.service.ts:106-113 | A new comment joins the end of its post's comments in table order. |
| `PostFacts.AddCommentIsListed` | src/app/modules/Post/post.service.ts:99-157 | A new comment appears on a first page large enough to hold all the post's comments, and the total grows by one. |
| `PostFacts.DeletedCommentIsNotListed` | src/app/modules/Post/post.service.ts:130-167 | A deleted comment is on no page of any post. |
| `PostFacts.SortKeepsComments` | src/app/modules/Post/post.service.ts:141 | Sorting by time neither adds nor loses a comment. |
| `PostFacts.PagesTile` | src/app/modules/Post/post.service.ts:137-141 | The first k items and the next m items together are the first k + m items. |
| `PostValidation.PostIssues` | src/app/modules/Post/post.validation.ts:3-7 | A field is reported iff it fails, counting UTF-16 code units: title at most 120 when present, content 1 to 5000, description at most 500 when present. |
| `PostValidation.ValidatePost` | src/app/modules/Post/post.validation.ts:3-7 | A post passes unchanged iff `PostIssues` reports nothing, that is iff every bound holds in UTF-16 code units. Otherwise the reported fields are the errors. |
| `PostValidation.PatchIssues` | src/app/modules/Post/post.validation.ts:10-14 | Every field is optional, and the same bounds, in UTF-16 code units, apply to those present. |
| `PostValidation.ValidateComment` | src/app/modules/Post/post.validation.ts:17-19 | A comment passes iff it has 1 to 2000 UTF-16 code units. |
| `PostValidation.ValidatedPostIsWithinBounds` | src/app/modules/Post/post.validation.ts:3-7 | A post created from a validated payload, in a board within bounds, keeps the board within bounds. |
| `PostValidation.ValidatedPatchKeepsBounds` | src/app/modules/Post/post.validation.ts:10-14 | An edit with a validated patch keeps every post within bounds. |
| `PostValidation.EmptyPatchChangesNothing` | src/app/modules/Post/post.service.ts:69-87 | An allowed edit that sends no field leaves the store unchanged. |
| `PostValidation.ValidatedCommentKeepsBounds` | src/app/modules/Post/post.validation.ts:17-19 | A validated comment keeps every stored comment within bounds. |
| `PostValidation.AstralTitleCountsTwice` | src/app/modules/Post/post.validation.ts:4 | A title of 61 characters from outside the Basic Multilingual Plane is over the 120 limit. |
| `Schema.Utf16LenPlain` | src/app/modules/Auth/auth.validation.ts:5 | Without characters outside the Basic Multilingual Plane, the length a bound compares is the character count. |
| `Schema.Utf16LenAllAstral` | src/app/modules/Auth/auth.validation.ts:5 | A string of characters outside the Basic Multilingual Plane has twice its character count as length. |

## Findings

| source | as written | input that shows it | evidently intended | confidence | as-written member | corrected member |
|---|---|---|---|---|---|---|
| src/helpers/CronJobs.ts:15-24 (also :51, :88) | the nightly, weekly and monthly resets zero the assignment's `progress` column, which the progress engine never reads | a child at 100% on an active daily goal: after the nightly run, a report of the whole duration is accepted and pays no reward | zero `percentage`, the column `updateProgress` reads (goal.service.ts:300), so each cycle can be completed and paid again | medium, not executed | `CronJobs.WrittenResetPaysNoReward` | `CronJobs.DailyResetReopensReward` |

## Left out

- E-mail delivery, the Supabase image store, push notifications and JWTs are not modelled. E-mail delivery is a `delivered` flag, and an image delete is a set of paths whose delete fails. Tokens are not modelled, and a session carries the user and its profile.
- bcrypt is taken to be an ideal injective hash, `Math.random` is the draw in [0, 90000), and `Date.now()` is an explicit `now`. Ids that the database generates are parameters.
- Concurrency and transaction isolation are not modelled: each `$transaction` is one atomic step. The reward is paid at most once only for sequential calls; two concurrent reports are not covered.
- Timers are a map from key to pending call. Real firing, delays, `clearTimeout` and process restarts are not modelled; `FireTimer` is the callback run at a chosen moment.
- The cron schedule is not modelled; each job is a transition at an explicit `now`.
- JavaScript floating point is not modelled. `Math.round` is exact round half up on integers, and the parent rollup's average is an exact rational (`real`).
- GoalProgress.MinutesOf: rounds the exact p·d/100. The code rounds the double (p / 100) · d, which at an exact half can fall just below it: p = 29, d = 50 gives 14 in the code and 15 here.
- GoalProgress.PercentOf: rounds the exact m·100/d. The code rounds the double (m / d) · 100, which at an exact half can fall just below it: m = 23, d = 40 gives 57 in the code and 58 here.
- GoalStoreFacts.ChildCreatedGoalNotFoundByProgress: holds only in a store without the foreign key from an assignment to a child profile. With that key, the create would more likely fail.
- Notification fan-out after `createGoal` and `updateGoal` is not modelled: notification.service.ts is not part of this model.
- zod's e-mail and UUID format checks are not modelled, and date strings arrive already parsed. Personal fields (gender, phone, images) are carried only where a check reads them.
- `updateChild`, `refreshAccessToken`, `getAllSiblings` and `listPosts` are not in the modelled core. The pagination helper is not part of this model: `skip` and `limit` are inputs, with `limit` taken positive.
- The foreign key from an assignment to a child profile is not modelled. The one to its goal is assumed (`GoalsLinked`).
- `PostService.DeletePost`: its comments are kept, because whether the database cascades the delete depends on a schema that is not part of this model.
- The success conditions of the avatar cascade (`AvatarCascadeFacts.*SucceedsIff`) assume unique primary keys in the catalog tables (`KeysUnique`), which the database guarantees.
- `AvatarCatalog.DeleteAsset`: the storage error's own message is replaced by the fallback "Asset image delete failed".
- `AuthService.CreateChild`: the new profile's coins and task count are taken as 0; the schema's column defaults are not part of this model.
- `PostService.ListComments`: comments with equal creation times may come back in any order, so the contract fixes the page contents only through `SortByTime`. The page number and limit echoed in the reply are not modelled.
- `GoalStore.GetParentGoals`: the child profile joined to each assignment is not returned.
