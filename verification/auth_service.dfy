/**
 * Accounts: a parent registers and receives a one-time code by e-mail, verifies
 * it, and logs in; a forgotten password is replaced through a second one-time
 * code; a parent creates child accounts (verified from the start), and accounts
 * are soft-deleted. bcrypt is an ideal hash, the random draw behind a code, the
 * clock and e-mail delivery are parameters, and tokens are not modelled.
 */
module AuthService {
  import opened Wrappers
  import opened Tables
  import opened Entities

  /** A code is valid for five minutes. */
  const OtpLifetimeMs: int := 5 * 60 * 1000

  // ---- one-time codes as decimal strings ----

  function Pow10(k: nat): (r: nat)
    ensures r >= 1
  {
    if k == 0 then 1 else 10 * Pow10(k - 1)
  }

  function DigitChar(d: nat): (c: char)
    requires d < 10
    ensures '0' <= c <= '9' && c as int - '0' as int == d
  {
    "0123456789"[d]
  }

  /** `n.toString()`: the decimal digits of `n`, most significant first, no leading zeros. */
  function Digits(n: nat): (r: string)
    ensures 1 <= |r|
    ensures forall i :: 0 <= i < |r| ==> '0' <= r[i] <= '9'
    decreases n
  {
    if n < 10 then [DigitChar(n)] else Digits(n / 10) + [DigitChar(n % 10)]
  }

  /** The number a string of decimal digits denotes. */
  function DigitsValue(s: string): int
  {
    if |s| == 0 then 0 else 10 * DigitsValue(s[..|s| - 1]) + (s[|s| - 1] as int - '0' as int)
  }

  /** Reading the printed number back gives the number. */
  lemma {:induction false} DigitsRoundTrip(n: nat)
    ensures DigitsValue(Digits(n)) == n
    decreases n
  {
    if n >= 10 {
      var r := Digits(n);
      assert r[..|r| - 1] == Digits(n / 10);
      DigitsRoundTrip(n / 10);
    }
  }

  /** A number with `k` digits prints as `k` characters. */
  lemma {:induction false} DigitsLength(n: nat, k: nat)
    requires 1 <= k && Pow10(k - 1) <= n < Pow10(k)
    ensures |Digits(n)| == k
    decreases k
  {
    if k > 1 {
      assert Pow10(k - 1) == 10 * Pow10(k - 2);
      DigitsLength(n / 10, k - 1);
    }
  }

  /**
   * `Math.floor(10000 + Math.random() * 90000).toString()` for the random draw
   * `draw`: a five-digit code that denotes `10000 + draw`.
   */
  function Otp(draw: int): (r: string)
    requires 0 <= draw < 90000
    ensures |r| == 5
    ensures forall i :: 0 <= i < |r| ==> '0' <= r[i] <= '9'
    ensures DigitsValue(r) == 10000 + draw
  {
    FiveDigitBounds();
    DigitsLength(10000 + draw, 5);
    DigitsRoundTrip(10000 + draw);
    Digits(10000 + draw)
  }

  lemma FiveDigitBounds()
    ensures Pow10(4) == 10000 && Pow10(5) == 100000
  {
    assert Pow10(2) == 100;
    assert Pow10(3) == 1000;
  }

  /** Different draws give different codes. */
  lemma OtpInjective(d1: int, d2: int)
    requires 0 <= d1 < 90000 && 0 <= d2 < 90000 && Otp(d1) == Otp(d2)
    ensures d1 == d2
  {
  }

  // ---- lookups ----

  function UserById(s: Store, id: Id): (r: Option<nat>)
    ensures r.Some? ==> r.value < |s.users| && s.users[r.value].id == id
    ensures r.None? ==> forall j :: 0 <= j < |s.users| ==> s.users[j].id != id
  {
    FirstIndex(s.users, (u: User) => u.id == id)
  }

  function ParentByUser(s: Store, userId: Id): (r: Option<nat>)
    ensures r.Some? ==> r.value < |s.parents| && s.parents[r.value].userId == userId
    ensures r.None? ==> forall j :: 0 <= j < |s.parents| ==> s.parents[j].userId != userId
  {
    FirstIndex(s.parents, (p: ParentProfile) => p.userId == userId)
  }

  function ParentById(s: Store, id: Id): (r: Option<nat>)
    ensures r.Some? ==> r.value < |s.parents| && s.parents[r.value].id == id
    ensures r.None? ==> forall j :: 0 <= j < |s.parents| ==> s.parents[j].id != id
  {
    FirstIndex(s.parents, (p: ParentProfile) => p.id == id)
  }

  function ChildById(s: Store, id: Id): (r: Option<nat>)
    ensures r.Some? ==> r.value < |s.children| && s.children[r.value].id == id
    ensures r.None? ==> forall j :: 0 <= j < |s.children| ==> s.children[j].id != id
  {
    FirstIndex(s.children, (c: ChildProfile) => c.id == id)
  }

  /** Rewriting a user row without changing its e-mail keeps every lookup by e-mail. */
  lemma UserByEmailAfterWrite(s: Store, i: nat, u: User, email: string)
    requires i < |s.users| && u.email == s.users[i].email
    ensures UserByEmail(s.(users := s.users[i := u]), email) == UserByEmail(s, email)
  {
    FirstIndexSame(s.users, (x: User) => x.email == email, s.users[i := u], (x: User) => x.email == email);
  }

  /** A row appended under a new e-mail is the one found by that e-mail. */
  lemma UserByEmailAfterAppend(s: Store, u: User)
    requires UserByEmail(s, u.email).None?
    ensures UserByEmail(s.(users := s.users + [u]), u.email) == Some(|s.users|)
  {
    var s' := s.(users := s.users + [u]);
    assert s'.users[|s.users|].email == u.email;
  }

  // ---- registration ----

  datatype Registration = Registration(email: string, password: string, name: string, phone: string)

  /** The user row a new parent gets: unverified, with a code valid for five minutes. */
  function PendingParent(id: Id, r: Registration, otp: string, now: Instant): User {
    User(id, r.email, Hashed(r.password), Parent, Some(otp), Some(now + OtpLifetimeMs), false, false, None, None)
  }

  /**
   * `createUser`: refuses a taken e-mail; otherwise writes the user and its parent
   * profile and e-mails the code, all in one transaction, so a failed e-mail
   * writes nothing.
   */
  function CreateUser(s: Store, r: Registration, userId: Id, parentId: Id, draw: int, now: Instant, delivered: bool): (o: Step<User>)
    requires 0 <= draw < 90000
    ensures o.result.Err? ==> o.store == s
    ensures UserByEmail(s, r.email).Some? ==> o.result == Err(AppError(409, "User Already Exist"))
    ensures UserByEmail(s, r.email).None? && !delivered ==> o.result == Err(EmailFailed)
    ensures o.result.Ok? <==> UserByEmail(s, r.email).None? && delivered
    ensures o.result.Ok? ==>
      var u := o.result.value;
      && u.id == userId && u.email == r.email && u.role == Parent
      && !u.isVerified && !u.isDeleted
      && u.otp.Some? && |u.otp.value| == 5 && u.otpExpiresAt == Some(now + OtpLifetimeMs)
      && u.password == Hashed(r.password)
      && o.store == s.(users := s.users + [u], parents := s.parents + [ParentProfile(parentId, userId, r.name, r.phone, false)])
  {
    if UserByEmail(s, r.email).Some? then Step(s, Err(AppError(409, "User Already Exist")))
    else if !delivered then Step(s, Err(EmailFailed))
    else
      var u := PendingParent(userId, r, Otp(draw), now);
      Step(s.(users := s.users + [u], parents := s.parents + [ParentProfile(parentId, userId, r.name, r.phone, false)]), Ok(u))
  }

  /**
   * `resendOtp`: a fresh code for an unverified user. The code is written before
   * the e-mail is sent, so a failed e-mail still leaves the new code in place.
   */
  function ResendOtp(s: Store, email: string, draw: int, now: Instant, delivered: bool): (o: Step<string>)
    requires 0 <= draw < 90000
    ensures UserByEmail(s, email).None? ==> o == Step(s, Err(AppError(404, "User not found")))
    ensures UserByEmail(s, email).Some? && s.users[UserByEmail(s, email).value].isVerified ==>
      o == Step(s, Err(AppError(400, "User already verified")))
    ensures UserByEmail(s, email).Some? && !s.users[UserByEmail(s, email).value].isVerified ==>
      var i := UserByEmail(s, email).value;
      var u := s.users[i];
      && o.store == s.(users := s.users[i := u.(otp := Some(Otp(draw)), otpExpiresAt := Some(now + OtpLifetimeMs))])
      && o.result == (if delivered then Ok("OTP resent successfully") else Err(EmailFailed))
  {
    var i := UserByEmail(s, email);
    if i.None? then Step(s, Err(AppError(404, "User not found")))
    else if s.users[i.value].isVerified then Step(s, Err(AppError(400, "User already verified")))
    else
      var u := s.users[i.value];
      var s' := s.(users := s.users[i.value := u.(otp := Some(Otp(draw)), otpExpiresAt := Some(now + OtpLifetimeMs))]);
      Step(s', if delivered then Ok("OTP resent successfully") else Err(EmailFailed))
  }

  /**
   * `verifyOtp`: checks, in order, that the user exists, is not yet verified,
   * sent the stored code, and that the code has not expired (a missing expiry
   * never expires); then marks the user verified and clears the code.
   */
  function VerifyOtp(s: Store, email: string, otp: string, now: Instant): (o: Step<User>)
    ensures o.result.Err? ==> o.store == s
    ensures UserByEmail(s, email).None? ==> o.result == Err(AppError(404, "User not found"))
    ensures UserByEmail(s, email).Some? ==>
      var u := s.users[UserByEmail(s, email).value];
      && (u.isVerified ==> o.result == Err(AppError(400, "User already verified")))
      && (!u.isVerified && u.otp != Some(otp) ==> o.result == Err(AppError(401, "Invalid OTP")))
      && (!u.isVerified && u.otp == Some(otp) && u.otpExpiresAt.Some? && u.otpExpiresAt.value < now ==>
            o.result == Err(AppError(401, "OTP has expired")))
    ensures o.result.Ok? <==>
      && UserByEmail(s, email).Some?
      && var u := s.users[UserByEmail(s, email).value];
      && !u.isVerified && u.otp == Some(otp) && (u.otpExpiresAt.None? || now <= u.otpExpiresAt.value)
    ensures o.result.Ok? ==>
      var i := UserByEmail(s, email).value;
      && o.result.value == s.users[i].(isVerified := true, otp := None, otpExpiresAt := None)
      && o.store == s.(users := s.users[i := o.result.value])
  {
    var i := UserByEmail(s, email);
    if i.None? then Step(s, Err(AppError(404, "User not found")))
    else
      var u := s.users[i.value];
      if u.isVerified then Step(s, Err(AppError(400, "User already verified")))
      else if u.otp != Some(otp) then Step(s, Err(AppError(401, "Invalid OTP")))
      else if u.otpExpiresAt.Some? && u.otpExpiresAt.value < now then Step(s, Err(AppError(401, "OTP has expired")))
      else
        var u' := u.(isVerified := true, otp := None, otpExpiresAt := None);
        Step(s.(users := s.users[i.value := u']), Ok(u'))
  }

  // ---- login ----

  /** The profile returned with a login, by role. */
  datatype Profile =
    | ParentView(parent: Option<ParentProfile>, liveChildren: seq<ChildProfile>)
    | ChildView(child: Option<ChildProfile>)
    | AdminView(user: User)

  datatype Session = Session(userId: Id, email: string, role: Role, profile: Profile)

  /** The parent's children that are not deleted, in table order. */
  function LiveChildrenOf(children: seq<ChildProfile>, parentId: Id): (r: seq<ChildProfile>)
    ensures forall c :: c in r <==> c in children && c.parentId == parentId && !c.isDeleted
  {
    Filter(children, (c: ChildProfile) => c.parentId == parentId && !c.isDeleted)
  }

  function ProfileOf(s: Store, u: User): Profile {
    match u.role
    case Parent =>
      var p := ParentByUser(s, u.id);
      if p.None? then ParentView(None, [])
      else ParentView(Some(s.parents[p.value]), LiveChildrenOf(s.children, s.parents[p.value].id))
    case Child =>
      var c := ChildByUser(s, u.id);
      ChildView(if c.None? then None else Some(s.children[c.value]))
    case Admin => AdminView(u)
  }

  /**
   * `loginUser`: refuses, in order, an unknown or deleted user (both 404), an
   * unverified user and a wrong password (both 401). Writes nothing.
   */
  function LoginUser(s: Store, email: string, password: string): (r: Result<Session, Error>)
    ensures UserByEmail(s, email).None? ==> r == Err(AppError(404, "User not found"))
    ensures UserByEmail(s, email).Some? ==>
      var u := s.users[UserByEmail(s, email).value];
      && (u.isDeleted ==> r == Err(AppError(404, "User not found")))
      && (!u.isDeleted && !u.isVerified ==> r == Err(AppError(401, "User not verified. Please verify your email/OTP.")))
      && (!u.isDeleted && u.isVerified && u.password != Hashed(password) ==> r == Err(AppError(401, "Incorrect password")))
    ensures r.Ok? <==>
      && UserByEmail(s, email).Some?
      && var u := s.users[UserByEmail(s, email).value];
      && !u.isDeleted && u.isVerified && u.password == Hashed(password)
    ensures r.Ok? ==>
      var u := s.users[UserByEmail(s, email).value];
      r.value.userId == u.id && r.value.email == u.email && r.value.role == u.role
  {
    var i := UserByEmail(s, email);
    if i.None? then Err(AppError(404, "User not found"))
    else
      var u := s.users[i.value];
      if u.isDeleted then Err(AppError(404, "User not found"))
      else if !u.isVerified then Err(AppError(401, "User not verified. Please verify your email/OTP."))
      else if u.password != Hashed(password) then Err(AppError(401, "Incorrect password"))
      else Ok(Session(u.id, u.email, u.role, ProfileOf(s, u)))
  }

  // ---- passwords ----

  /** `changePassword`: the old password must match; only the hash changes. */
  function ChangePassword(s: Store, userId: Id, oldPassword: string, newPassword: string): (o: Step<string>)
    ensures o.result.Err? ==> o.store == s
    ensures UserById(s, userId).None? ==> o.result == Err(AppError(404, "User not found"))
    ensures o.result.Ok? <==> UserById(s, userId).Some? && s.users[UserById(s, userId).value].password == Hashed(oldPassword)
    ensures UserById(s, userId).Some? && !o.result.Ok? ==> o.result == Err(AppError(401, "Old password is incorrect"))
    ensures o.result.Ok? ==>
      var i := UserById(s, userId).value;
      o.store == s.(users := s.users[i := s.users[i].(password := Hashed(newPassword))])
  {
    var i := UserById(s, userId);
    if i.None? then Step(s, Err(AppError(404, "User not found")))
    else if s.users[i.value].password != Hashed(oldPassword) then Step(s, Err(AppError(401, "Old password is incorrect")))
    else Step(s.(users := s.users[i.value := s.users[i.value].(password := Hashed(newPassword))]), Ok("Password changed successfully"))
  }

  /**
   * `requestPasswordReset`: stores a reset code valid for five minutes for any
   * existing user (verified, deleted or not), then e-mails it; a failed e-mail
   * leaves the code stored.
   */
  function RequestPasswordReset(s: Store, email: string, draw: int, now: Instant, delivered: bool): (o: Step<string>)
    requires 0 <= draw < 90000
    ensures UserByEmail(s, email).None? ==> o == Step(s, Err(AppError(404, "User not found")))
    ensures UserByEmail(s, email).Some? ==>
      var i := UserByEmail(s, email).value;
      && o.store == s.(users := s.users[i := s.users[i].(resetOtp := Some(Otp(draw)), resetExpiresAt := Some(now + OtpLifetimeMs))])
      && o.result == (if delivered then Ok("Password reset OTP sent to your email") else Err(EmailFailed))
  {
    var i := UserByEmail(s, email);
    if i.None? then Step(s, Err(AppError(404, "User not found")))
    else
      var u := s.users[i.value];
      Step(s.(users := s.users[i.value := u.(resetOtp := Some(Otp(draw)), resetExpiresAt := Some(now + OtpLifetimeMs))]),
           if delivered then Ok("Password reset OTP sent to your email") else Err(EmailFailed))
  }

  /** `otp || opt`: the `otp` field unless it is missing or empty, else the misspelt `opt`. */
  function SubmittedCode(otp: Option<string>, opt: Option<string>): (r: Option<string>)
    ensures otp.Some? && otp.value != "" ==> r == otp
    ensures !(otp.Some? && otp.value != "") ==> r == opt
  {
    if otp.Some? && otp.value != "" then otp else opt
  }

  /** A stored reset code is usable only when present, non-empty and equal to the submitted one. */
  predicate CodeMatches(stored: Option<string>, submitted: Option<string>) {
    stored.Some? && stored.value != "" && submitted == stored
  }

  /**
   * `resetPassword`: the submitted code must equal the stored reset code, which
   * must not have expired (a missing expiry counts as expired); then the new
   * password is stored and the reset code cleared.
   */
  function ResetPassword(s: Store, email: string, otp: Option<string>, opt: Option<string>, newPassword: string, now: Instant): (o: Step<string>)
    ensures o.result.Err? ==> o.store == s
    ensures UserByEmail(s, email).None? ==> o.result == Err(AppError(404, "User not found"))
    ensures UserByEmail(s, email).Some? ==>
      var u := s.users[UserByEmail(s, email).value];
      && (!CodeMatches(u.resetOtp, SubmittedCode(otp, opt)) ==> o.result == Err(AppError(401, "Invalid OTP")))
      && (CodeMatches(u.resetOtp, SubmittedCode(otp, opt)) && (u.resetExpiresAt.None? || u.resetExpiresAt.value < now) ==>
            o.result == Err(AppError(401, "OTP has expired")))
    ensures o.result.Ok? <==>
      && UserByEmail(s, email).Some?
      && var u := s.users[UserByEmail(s, email).value];
      && CodeMatches(u.resetOtp, SubmittedCode(otp, opt)) && u.resetExpiresAt.Some? && now <= u.resetExpiresAt.value
    ensures o.result.Ok? ==>
      var i := UserByEmail(s, email).value;
      o.store == s.(users := s.users[i := s.users[i].(password := Hashed(newPassword), resetOtp := None, resetExpiresAt := None)])
  {
    var code := SubmittedCode(otp, opt);
    var i := UserByEmail(s, email);
    if i.None? then Step(s, Err(AppError(404, "User not found")))
    else
      var u := s.users[i.value];
      if !CodeMatches(u.resetOtp, code) then Step(s, Err(AppError(401, "Invalid OTP")))
      else if u.resetExpiresAt.None? || u.resetExpiresAt.value < now then Step(s, Err(AppError(401, "OTP has expired")))
      else
        Step(s.(users := s.users[i.value := u.(password := Hashed(newPassword), resetOtp := None, resetExpiresAt := None)]),
             Ok("Password has been reset successfully"))
  }

  // ---- children ----

  /** A create-child request as the service receives it; absent permissions take the service's defaults. */
  datatype ChildRequest = ChildRequest(
    email: string,
    password: string,
    name: string,
    accountType: Option<AccountType>,
    editProfile: Option<bool>,
    createGoals: Option<bool>,
    approveTasks: Option<bool>,
    deleteGoals: Option<bool>)

  /** `payload.x ?? default` for the four stored permissions. */
  function ServicePermissions(r: ChildRequest): (p: Permissions)
    ensures r.editProfile.None? ==> p.editProfile
    ensures r.createGoals.None? ==> !p.createGoals
    ensures r.approveTasks.None? ==> !p.approveTasks
    ensures r.deleteGoals.None? ==> !p.deleteGoals
    ensures r.editProfile.Some? ==> p.editProfile == r.editProfile.value
    ensures r.createGoals.Some? ==> p.createGoals == r.createGoals.value
    ensures r.approveTasks.Some? ==> p.approveTasks == r.approveTasks.value
    ensures r.deleteGoals.Some? ==> p.deleteGoals == r.deleteGoals.value
  {
    Permissions(r.editProfile.GetOr(true), r.createGoals.GetOr(false), r.approveTasks.GetOr(false), r.deleteGoals.GetOr(false))
  }

  /**
   * `createChild` by the parent whose user id is `parentUserId`: refuses a taken
   * e-mail (409), then a caller without a parent profile (404); then writes a
   * verified CHILD user and its profile under that parent in one transaction.
   */
  function CreateChild(s: Store, parentUserId: Id, r: ChildRequest, userId: Id, childId: Id): (o: Step<ChildProfile>)
    ensures o.result.Err? ==> o.store == s
    ensures UserByEmail(s, r.email).Some? ==> o.result == Err(AppError(409, "User Already Exists"))
    ensures UserByEmail(s, r.email).None? && ParentByUser(s, parentUserId).None? ==> o.result == Err(AppError(404, "Parent not found"))
    ensures o.result.Ok? <==> UserByEmail(s, r.email).None? && ParentByUser(s, parentUserId).Some?
    ensures o.result.Ok? ==>
      var c := o.result.value;
      var u := User(userId, r.email, Hashed(r.password), Child, None, None, true, false, None, None);
      && c.id == childId && c.userId == userId && c.parentId == s.parents[ParentByUser(s, parentUserId).value].id
      && c.name == r.name && c.email == r.email && c.accountType == r.accountType
      && c.permissions == ServicePermissions(r) && !c.isDeleted
      && o.store == s.(users := s.users + [u], children := s.children + [c])
  {
    if UserByEmail(s, r.email).Some? then Step(s, Err(AppError(409, "User Already Exists")))
    else
      var p := ParentByUser(s, parentUserId);
      if p.None? then Step(s, Err(AppError(404, "Parent not found")))
      else
        var u := User(userId, r.email, Hashed(r.password), Child, None, None, true, false, None, None);
        var c := ChildProfile(childId, userId, s.parents[p.value].id, r.name, r.email, r.accountType,
                              ServicePermissions(r), 0, 0, None, false);
        Step(s.(users := s.users + [u], children := s.children + [c]), Ok(c))
  }

  /**
   * `deleteChild`: soft-deletes the profile and then, in a transaction, its
   * user. The profile update is not part of that transaction, so a missing user
   * leaves the profile deleted while reporting the failure.
   */
  function DeleteChild(s: Store, childId: Id): (o: Step<()>)
    ensures ChildById(s, childId).None? ==> o == Step(s, Err(RecordNotFound))
    ensures ChildById(s, childId).Some? ==>
      var ci := ChildById(s, childId).value;
      var afterProfile := s.(children := s.children[ci := s.children[ci].(isDeleted := true)]);
      var ui := UserById(s, s.children[ci].userId);
      && (ui.None? ==> o == Step(afterProfile, Err(RecordNotFound)))
      && (ui.Some? ==> o == Step(afterProfile.(users := s.users[ui.value := s.users[ui.value].(isDeleted := true)]), Ok(())))
  {
    var ci := ChildById(s, childId);
    if ci.None? then Step(s, Err(RecordNotFound))
    else
      var c := s.children[ci.value];
      var s1 := s.(children := s.children[ci.value := c.(isDeleted := true)]);
      var ui := UserById(s, c.userId);
      if ui.None? then Step(s1, Err(RecordNotFound))
      else Step(s1.(users := s.users[ui.value := s.users[ui.value].(isDeleted := true)]), Ok(()))
  }

  /** `deleteParent`: 404 for an unknown profile; else the profile and its user are soft-deleted together. */
  function DeleteParent(s: Store, parentId: Id): (o: Step<()>)
    ensures o.result.Err? ==> o.store == s
    ensures ParentById(s, parentId).None? ==> o.result == Err(AppError(404, "Parent not found"))
    ensures ParentById(s, parentId).Some? ==>
      var pi := ParentById(s, parentId).value;
      var ui := UserById(s, s.parents[pi].userId);
      && (ui.None? ==> o.result == Err(RecordNotFound))
      && (ui.Some? ==> o == Step(s.(parents := s.parents[pi := s.parents[pi].(isDeleted := true)],
                                    users := s.users[ui.value := s.users[ui.value].(isDeleted := true)]), Ok(())))
  {
    var pi := ParentById(s, parentId);
    if pi.None? then Step(s, Err(AppError(404, "Parent not found")))
    else
      var p := s.parents[pi.value];
      var ui := UserById(s, p.userId);
      if ui.None? then Step(s, Err(RecordNotFound))
      else Step(s.(parents := s.parents[pi.value := p.(isDeleted := true)],
                   users := s.users[ui.value := s.users[ui.value].(isDeleted := true)]), Ok(()))
  }

  /** `getAllChild`: the caller's live children, or 404 when the caller has no parent profile. */
  function GetAllChild(s: Store, userId: Id): (r: Result<seq<ChildProfile>, Error>)
    ensures ParentByUser(s, userId).None? <==> r == Err(AppError(404, "Parent not found"))
    ensures r.Ok? ==>
      var pid := s.parents[ParentByUser(s, userId).value].id;
      forall c :: c in r.value <==> c in s.children && c.parentId == pid && !c.isDeleted
  {
    var p := ParentByUser(s, userId);
    if p.None? then Err(AppError(404, "Parent not found"))
    else Ok(LiveChildrenOf(s.children, s.parents[p.value].id))
  }
}
