/**
 * The account state machine across calls: a code verifies once, a reset code
 * works once, registration followed by verification within five minutes lets
 * the user log in, a new child can log in at once, and a deleted account cannot.
 */
module AuthFacts {
  import opened Wrappers
  import opened Tables
  import opened Entities
  import opened AuthService

  /** The unique index on `user.email`. */
  ghost predicate EmailsUnique(s: Store) {
    forall i, j :: 0 <= i < j < |s.users| ==> s.users[i].email != s.users[j].email
  }

  /** With unique e-mails, a user's own e-mail finds that user. */
  lemma EmailFindsUser(s: Store, k: nat)
    requires EmailsUnique(s) && k < |s.users|
    ensures UserByEmail(s, s.users[k].email) == Some(k)
  {
    FirstIndexIsFirst(s, s.users[k].email);
  }

  /** No earlier row has the e-mail the lookup found. */
  lemma FirstIndexIsFirst(s: Store, email: string)
    ensures UserByEmail(s, email).Some? ==> forall j :: 0 <= j < UserByEmail(s, email).value ==> s.users[j].email != email
  {
  }

  /** A verified code cannot be used again: the second attempt reports the account as verified. */
  lemma VerifyOnlyOnce(s: Store, email: string, otp: string, now: Instant, otp2: string, later: Instant)
    requires VerifyOtp(s, email, otp, now).result.Ok?
    ensures VerifyOtp(VerifyOtp(s, email, otp, now).store, email, otp2, later).result == Err(AppError(400, "User already verified"))
  {
    var i := UserByEmail(s, email).value;
    var s' := VerifyOtp(s, email, otp, now).store;
    UserByEmailAfterWrite(s, i, s'.users[i], email);
  }

  /** A reset code cannot be used twice: whatever is submitted next is an invalid code. */
  lemma ResetCodeUsedOnce(s: Store, email: string, otp: Option<string>, opt: Option<string>, pw: string, now: Instant,
                          otp2: Option<string>, opt2: Option<string>, pw2: string, later: Instant)
    requires ResetPassword(s, email, otp, opt, pw, now).result.Ok?
    ensures ResetPassword(ResetPassword(s, email, otp, opt, pw, now).store, email, otp2, opt2, pw2, later).result
      == Err(AppError(401, "Invalid OTP"))
  {
    var i := UserByEmail(s, email).value;
    var s' := ResetPassword(s, email, otp, opt, pw, now).store;
    UserByEmailAfterWrite(s, i, s'.users[i], email);
  }

  /**
   * Register, enter the e-mailed code within five minutes, log in: every step
   * succeeds, and logging in before verifying is refused.
   */
  lemma RegisterVerifyLogin(s: Store, r: Registration, userId: Id, parentId: Id, draw: int, now: Instant, later: Instant)
    requires 0 <= draw < 90000
    requires CreateUser(s, r, userId, parentId, draw, now, true).result.Ok?
    requires now <= later <= now + OtpLifetimeMs
    ensures
      var s1 := CreateUser(s, r, userId, parentId, draw, now, true).store;
      var v := VerifyOtp(s1, r.email, Otp(draw), later);
      && LoginUser(s1, r.email, r.password) == Err(AppError(401, "User not verified. Please verify your email/OTP."))
      && v.result.Ok?
      && LoginUser(v.store, r.email, r.password).Ok?
  {
    var s1 := CreateUser(s, r, userId, parentId, draw, now, true).store;
    var u := s1.users[|s.users|];
    UserByEmailAfterAppend(s, u);
    assert s1.users == s.users + [u];
    assert UserByEmail(s1, r.email) == Some(|s.users|);
    var v := VerifyOtp(s1, r.email, Otp(draw), later);
    UserByEmailAfterWrite(s1, |s.users|, v.store.users[|s.users|], r.email);
  }

  /** A code presented after its five minutes is refused as expired. */
  lemma LateCodeExpires(s: Store, r: Registration, userId: Id, parentId: Id, draw: int, now: Instant, later: Instant)
    requires 0 <= draw < 90000
    requires CreateUser(s, r, userId, parentId, draw, now, true).result.Ok?
    requires later > now + OtpLifetimeMs
    ensures VerifyOtp(CreateUser(s, r, userId, parentId, draw, now, true).store, r.email, Otp(draw), later).result
      == Err(AppError(401, "OTP has expired"))
  {
    var s1 := CreateUser(s, r, userId, parentId, draw, now, true).store;
    UserByEmailAfterAppend(s, s1.users[|s.users|]);
    assert s1.users == s.users + [s1.users[|s.users|]];
  }

  /**
   * The resent code is stored before it is mailed, so it verifies within five
   * minutes even when the e-mail failed.
   */
  lemma ResentCodeVerifies(s: Store, email: string, draw: int, now: Instant, delivered: bool, later: Instant)
    requires 0 <= draw < 90000
    requires UserByEmail(s, email).Some? && !s.users[UserByEmail(s, email).value].isVerified
    requires now <= later <= now + OtpLifetimeMs
    ensures VerifyOtp(ResendOtp(s, email, draw, now, delivered).store, email, Otp(draw), later).result.Ok?
  {
    var i := UserByEmail(s, email).value;
    var s1 := ResendOtp(s, email, draw, now, delivered).store;
    UserByEmailAfterWrite(s, i, s1.users[i], email);
  }

  /** Requesting a reset and presenting the code in time replaces the password: the new one logs in. */
  lemma ResetReplacesPassword(s: Store, email: string, draw: int, now: Instant, later: Instant, pw: string)
    requires 0 <= draw < 90000
    requires UserByEmail(s, email).Some?
    requires var u := s.users[UserByEmail(s, email).value]; u.isVerified && !u.isDeleted
    requires now <= later <= now + OtpLifetimeMs
    ensures
      var s1 := RequestPasswordReset(s, email, draw, now, true).store;
      var s2 := ResetPassword(s1, email, Some(Otp(draw)), None, pw, later);
      s2.result.Ok? && LoginUser(s2.store, email, pw).Ok?
  {
    var i := UserByEmail(s, email).value;
    var s1 := RequestPasswordReset(s, email, draw, now, true).store;
    UserByEmailAfterWrite(s, i, s1.users[i], email);
    var s2 := ResetPassword(s1, email, Some(Otp(draw)), None, pw, later);
    UserByEmailAfterWrite(s1, i, s2.store.users[i], email);
  }

  /** A child account needs no code: it can log in with its password straight away. */
  lemma NewChildLogsIn(s: Store, parentUserId: Id, r: ChildRequest, userId: Id, childId: Id)
    requires CreateChild(s, parentUserId, r, userId, childId).result.Ok?
    ensures
      var s1 := CreateChild(s, parentUserId, r, userId, childId).store;
      var l := LoginUser(s1, r.email, r.password);
      l.Ok? && l.value.role == Child && l.value.userId == userId
  {
    var s1 := CreateChild(s, parentUserId, r, userId, childId).store;
    UserByEmailAfterAppend(s, s1.users[|s.users|]);
    assert s1.users == s.users + [s1.users[|s.users|]];
  }

  /** A deleted parent's account can no longer log in. */
  lemma DeletedParentCannotLogIn(s: Store, parentId: Id, password: string)
    requires EmailsUnique(s)
    requires DeleteParent(s, parentId).result.Ok?
    ensures
      var ui := UserById(s, s.parents[ParentById(s, parentId).value].userId).value;
      LoginUser(DeleteParent(s, parentId).store, s.users[ui].email, password) == Err(AppError(404, "User not found"))
  {
    var pi := ParentById(s, parentId).value;
    var ui := UserById(s, s.parents[pi].userId).value;
    var s1 := DeleteParent(s, parentId).store;
    EmailFindsUser(s, ui);
    UserByEmailAfterWrite(s, ui, s1.users[ui], s.users[ui].email);
    assert s1.users == s.users[ui := s1.users[ui]];
  }

  /**
   * After a password change, a verified, live user logs in with the new password
   * and no longer with the old one.
   */
  lemma ChangePasswordThenLogin(s: Store, userId: Id, oldPassword: string, newPassword: string)
    requires EmailsUnique(s)
    requires ChangePassword(s, userId, oldPassword, newPassword).result.Ok?
    requires
      var u := s.users[UserById(s, userId).value];
      u.isVerified && !u.isDeleted
    ensures
      var s1 := ChangePassword(s, userId, oldPassword, newPassword).store;
      var email := s.users[UserById(s, userId).value].email;
      && LoginUser(s1, email, newPassword).Ok?
      && LoginUser(s1, email, newPassword).value.userId == userId
      && (oldPassword != newPassword ==> LoginUser(s1, email, oldPassword) == Err(AppError(401, "Incorrect password")))
  {
    var ui := UserById(s, userId).value;
    var s1 := ChangePassword(s, userId, oldPassword, newPassword).store;
    EmailFindsUser(s, ui);
    UserByEmailAfterWrite(s, ui, s1.users[ui], s.users[ui].email);
    assert s1.users == s.users[ui := s1.users[ui]];
  }

  /** A deleted child's account can no longer log in. */
  lemma DeletedChildCannotLogIn(s: Store, childId: Id, password: string)
    requires EmailsUnique(s)
    requires DeleteChild(s, childId).result.Ok?
    ensures
      var ui := UserById(s, s.children[ChildById(s, childId).value].userId).value;
      LoginUser(DeleteChild(s, childId).store, s.users[ui].email, password) == Err(AppError(404, "User not found"))
  {
    var ci := ChildById(s, childId).value;
    var ui := UserById(s, s.children[ci].userId).value;
    var s1 := DeleteChild(s, childId).store;
    EmailFindsUser(s, ui);
    UserByEmailAfterWrite(s, ui, s1.users[ui], s.users[ui].email);
    assert s1.users == s.users[ui := s1.users[ui]];
  }
}
