/**
 * The request schemas in front of the account service: minimum lengths of
 * passwords, names, phones and reset codes (in UTF-16 code units), the two enums of the child form,
 * and the defaults the create-child schema fills in. Every failing field is
 * reported, in schema order. The e-mail and UUID format checks are not modelled:
 * every address and id is taken as well-formed.
 */
module AuthValidation {
  import opened Wrappers
  import opened Schema
  import opened Entities
  import opened AuthService

  const MinPassword: nat := 6

  /** `createUserSchema`. */
  function ValidateRegistration(r: Registration): (v: Result<Registration, seq<string>>)
    ensures v.Ok? <==> Utf16Len(r.password) >= MinPassword && Utf16Len(r.name) >= 1 && Utf16Len(r.phone) >= 10
    ensures v.Ok? ==> v.value == r
    ensures v.Err? ==>
      && ("password" in v.error <==> Utf16Len(r.password) < MinPassword)
      && ("name" in v.error <==> Utf16Len(r.name) < 1)
      && ("phone" in v.error <==> Utf16Len(r.phone) < 10)
  {
    var issues := Issue(Utf16Len(r.password) < MinPassword, "password") + Issue(Utf16Len(r.name) < 1, "name") + Issue(Utf16Len(r.phone) < 10, "phone");
    if issues == [] then Ok(r) else Err(issues)
  }

  /** `loginSchema`. */
  function ValidateLogin(email: string, password: string): (v: Result<(string, string), seq<string>>)
    ensures v.Ok? <==> Utf16Len(password) >= MinPassword
    ensures v.Ok? ==> v.value == (email, password)
    ensures v.Err? ==> v.error == ["password"]
  {
    if Utf16Len(password) < MinPassword then Err(["password"]) else Ok((email, password))
  }

  /** `changePasswordSchema`. */
  function ValidateChangePassword(oldPassword: string, newPassword: string): (v: Result<(string, string), seq<string>>)
    ensures v.Ok? <==> Utf16Len(oldPassword) >= MinPassword && Utf16Len(newPassword) >= MinPassword
    ensures v.Ok? ==> v.value == (oldPassword, newPassword)
    ensures v.Err? ==>
      && ("oldPassword" in v.error <==> Utf16Len(oldPassword) < MinPassword)
      && ("newPassword" in v.error <==> Utf16Len(newPassword) < MinPassword)
  {
    var issues := Issue(Utf16Len(oldPassword) < MinPassword, "oldPassword") + Issue(Utf16Len(newPassword) < MinPassword, "newPassword");
    if issues == [] then Ok((oldPassword, newPassword)) else Err(issues)
  }

  /** `resetPasswordSchema`: a code of exactly five characters and a new password of at least six. */
  function ValidateReset(email: string, otp: string, newPassword: string): (v: Result<(string, string, string), seq<string>>)
    ensures v.Ok? <==> Utf16Len(otp) == 5 && Utf16Len(newPassword) >= MinPassword
    ensures v.Ok? ==> v.value == (email, otp, newPassword)
    ensures v.Err? ==>
      && ("otp" in v.error <==> Utf16Len(otp) != 5)
      && ("newPassword" in v.error <==> Utf16Len(newPassword) < MinPassword)
  {
    var issues := Issue(Utf16Len(otp) != 5, "otp") + Issue(Utf16Len(newPassword) < MinPassword, "newPassword");
    if issues == [] then Ok((email, otp, newPassword)) else Err(issues)
  }

  function AccountTypeName(a: AccountType): string {
    match a
    case AdminAccount => "ADMIN"
    case Moderator => "MODERATOR"
    case Viewer => "VIEWER"
  }

  /** `ChildAccountTypeEnum`: exactly the three names. */
  function ParseAccountType(name: string): (r: Option<AccountType>)
    ensures r.Some? ==> AccountTypeName(r.value) == name
    ensures (exists a :: AccountTypeName(a) == name) ==> r.Some?
  {
    if name == "ADMIN" then Some(AdminAccount)
    else if name == "MODERATOR" then Some(Moderator)
    else if name == "VIEWER" then Some(Viewer)
    else None
  }

  /** `GenderEnum`. */
  predicate IsGender(name: string) {
    name == "MALE" || name == "FEMALE"
  }

  /** A create-child form as it arrives; `parentId` is checked but the service never reads it. */
  datatype ChildForm = ChildForm(
    parentId: Id,
    email: string,
    password: string,
    name: string,
    gender: Option<string>,
    accountType: Option<string>,
    editProfile: Option<bool>,
    createGoals: Option<bool>,
    approveTasks: Option<bool>,
    deleteGoals: Option<bool>,
    unlockRewards: Option<bool>)

  predicate BadGender(gender: Option<string>) {
    gender.Some? && !IsGender(gender.value)
  }

  predicate BadAccountType(accountType: Option<string>) {
    accountType.Some? && ParseAccountType(accountType.value).None?
  }

  /**
   * `createChildSchema`: on success every permission is present, an omitted one
   * taking the schema's default (accountType MODERATOR; editProfile, createGoals,
   * approveTasks true; deleteGoals false). `unlockRewards` is accepted and dropped.
   */
  function ValidateChildForm(f: ChildForm): (v: Result<ChildRequest, seq<string>>)
    ensures v.Ok? <==> Utf16Len(f.password) >= MinPassword && Utf16Len(f.name) >= 1 && !BadGender(f.gender) && !BadAccountType(f.accountType)
    ensures v.Err? ==>
      && ("password" in v.error <==> Utf16Len(f.password) < MinPassword)
      && ("name" in v.error <==> Utf16Len(f.name) < 1)
      && ("gender" in v.error <==> BadGender(f.gender))
      && ("accountType" in v.error <==> BadAccountType(f.accountType))
    ensures v.Ok? ==>
      && v.value.email == f.email && v.value.password == f.password && v.value.name == f.name
      && v.value.accountType.Some?
      && (f.accountType.None? ==> v.value.accountType == Some(Moderator))
      && (f.accountType.Some? ==> AccountTypeName(v.value.accountType.value) == f.accountType.value)
      && v.value.editProfile == Some(f.editProfile.GetOr(true))
      && v.value.createGoals == Some(f.createGoals.GetOr(true))
      && v.value.approveTasks == Some(f.approveTasks.GetOr(true))
      && v.value.deleteGoals == Some(f.deleteGoals.GetOr(false))
  {
    var issues := Issue(Utf16Len(f.password) < MinPassword, "password") + Issue(Utf16Len(f.name) < 1, "name")
                  + Issue(BadGender(f.gender), "gender") + Issue(BadAccountType(f.accountType), "accountType");
    if issues != [] then Err(issues)
    else
      var accountType := if f.accountType.Some? then ParseAccountType(f.accountType.value) else Some(Moderator);
      Ok(ChildRequest(f.email, f.password, f.name, accountType,
                      Some(f.editProfile.GetOr(true)), Some(f.createGoals.GetOr(true)),
                      Some(f.approveTasks.GetOr(true)), Some(f.deleteGoals.GetOr(false))))
  }

  /** `updateChildSchema`: a non-empty name; gender, when sent, from the enum; nothing else checked. */
  function ValidateChildUpdate(name: string, gender: Option<string>): (v: Result<(string, Option<string>), seq<string>>)
    ensures v.Ok? <==> Utf16Len(name) >= 1 && !BadGender(gender)
    ensures v.Ok? ==> v.value == (name, gender)
    ensures v.Err? ==> ("name" in v.error <==> Utf16Len(name) < 1) && ("gender" in v.error <==> BadGender(gender))
  {
    var issues := Issue(Utf16Len(name) < 1, "name") + Issue(BadGender(gender), "gender");
    if issues == [] then Ok((name, gender)) else Err(issues)
  }

  // ---- validation against the service ----

  /** Every code the service issues is one the reset schema accepts. */
  lemma IssuedCodePassesResetSchema(draw: int, email: string, newPassword: string)
    requires 0 <= draw < 90000 && Utf16Len(newPassword) >= MinPassword
    ensures ValidateReset(email, Otp(draw), newPassword).Ok?
  {
    Utf16LenPlain(Otp(draw));
  }

  /**
   * Through the route, a child created without explicit permissions may create
   * goals and approve tasks (the schema's defaults), although the service's own
   * fallbacks would deny both.
   */
  lemma SchemaDefaultsOverrideService(s: Store, parentUserId: Id, f: ChildForm, userId: Id, childId: Id)
    requires ValidateChildForm(f).Ok?
    requires f.accountType.None? && f.editProfile.None? && f.createGoals.None? && f.approveTasks.None? && f.deleteGoals.None?
    requires CreateChild(s, parentUserId, ValidateChildForm(f).value, userId, childId).result.Ok?
    ensures
      var c := CreateChild(s, parentUserId, ValidateChildForm(f).value, userId, childId).result.value;
      c.permissions == Permissions(true, true, true, false) && c.accountType == Some(Moderator)
    ensures
      var raw := ChildRequest(f.email, f.password, f.name, None, None, None, None, None);
      ServicePermissions(raw) == Permissions(true, false, false, false)
  {
  }

  /** A password accepted at registration is accepted by the login schema. */
  lemma RegistrationPasswordPassesLogin(r: Registration)
    requires ValidateRegistration(r).Ok?
    ensures ValidateLogin(r.email, r.password).Ok?
  {
  }
}
