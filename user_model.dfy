/** Users: the stored record, the role enumeration and the pydantic model `UserSchema`. */
module UserModel {
  import opened Wrappers
  import opened ObjectIds
  import opened Documents
  import opened Fields

  /** The system-wide roles; the third is spelt as the application spells it. */
  datatype UserRole = RoleUser | RoleOrganiser | RoleBussiness | RoleAdmin

  function UserRoleName(r: UserRole): string {
    match r
    case RoleUser => "user"
    case RoleOrganiser => "organiser"
    case RoleBussiness => "bussiness"
    case RoleAdmin => "admin"
  }

  /** The `Literal['user', 'organiser', 'bussiness', 'admin']` check. */
  function ParseUserRole(s: string): (r: Option<UserRole>)
    ensures r.Some? <==> s == "user" || s == "organiser" || s == "bussiness" || s == "admin"
    ensures r.Some? ==> UserRoleName(r.value) == s
  {
    if s == "user" then Some(RoleUser)
    else if s == "organiser" then Some(RoleOrganiser)
    else if s == "bussiness" then Some(RoleBussiness)
    else if s == "admin" then Some(RoleAdmin)
    else None
  }

  lemma UserRoleRoundTrip(r: UserRole)
    ensures ParseUserRole(UserRoleName(r)) == Some(r)
  {
    match r
    case RoleUser =>
    case RoleOrganiser =>
    case RoleBussiness =>
    case RoleAdmin =>
  }

  datatype Location = Location(x: string, y: string)

  datatype UserData = UserData(
    name: string,
    email: string,
    password: string,
    secret: Option<map<string, string>>,
    approved: bool,
    createdAt: Option<Time>,
    address: Option<string>,
    gender: Option<string>,
    lastSyncedLocation: Option<Location>,
    role: UserRole)

  type User = Doc<UserData>

  function UserEmail(u: User): string { u.data.email }

  const MinUserNameLength: nat := 3
  const MaxUserNameLength: nat := 100
  const MinPasswordLength: nat := 8

  /** The fields given to `UserSchema`; `None` is a field left out. */
  datatype UserInput = UserInput(
    name: Option<string>,
    email: Option<string>,
    password: Option<string>,
    secret: Option<map<string, string>>,
    approved: Option<bool>,
    createdAt: Option<Time>,
    address: Option<string>,
    gender: Option<string>,
    lastSyncedLocation: Option<Location>,
    role: Option<string>)

  function CheckName(name: Option<string>): (r: Result<string, FieldError>)
    ensures r.Err? ==> r.error.field == "name"
  {
    if name.None? then Err(Missing("name")) else CheckLength("name", name.value, MinUserNameLength, MaxUserNameLength)
  }

  function CheckEmail(email: Option<string>): (r: Result<string, FieldError>)
    ensures r.Err? ==> r.error.field == "email"
  {
    if email.None? then Err(Missing("email")) else Ok(email.value)
  }

  function CheckPassword(password: Option<string>): (r: Result<string, FieldError>)
    ensures r.Err? ==> r.error.field == "password"
  {
    if password.None? then Err(Missing("password"))
    else if |password.value| < MinPasswordLength then Err(TooShort("password"))
    else Ok(password.value)
  }

  function CheckRole(role: Option<string>): (r: Result<UserRole, FieldError>)
    ensures r.Err? ==> r.error.field == "role"
  {
    if role.None? then Ok(RoleUser)
    else if ParseUserRole(role.value).None? then Err(NotAllowed("role"))
    else Ok(ParseUserRole(role.value).value)
  }

  /**
   * Building a `UserSchema` (the id field aside): name, email and password are required,
   * `approved` defaults to false, `role` to user, `created_at` to the construction time and
   * the optional profile fields to nothing.
   */
  function ValidateUserSchema(input: UserInput, now: Time): (r: Result<UserData, seq<FieldError>>)
    ensures r.Ok? <==>
      && input.name.Some? && MinUserNameLength <= |input.name.value| <= MaxUserNameLength
      && input.email.Some?
      && input.password.Some? && |input.password.value| >= MinPasswordLength
      && (input.role.None? || ParseUserRole(input.role.value).Some?)
    ensures r.Ok? ==> r.value.name == input.name.value && r.value.email == input.email.value && r.value.password == input.password.value
    ensures r.Ok? ==> r.value.role == (if input.role.None? then RoleUser else ParseUserRole(input.role.value).value)
    ensures r.Ok? ==> r.value.approved == (input.approved == Some(true))
    ensures r.Ok? ==> r.value.createdAt == Some(if input.createdAt.Some? then input.createdAt.value else now)
    ensures r.Ok? ==> r.value.secret == input.secret && r.value.address == input.address
                      && r.value.gender == input.gender && r.value.lastSyncedLocation == input.lastSyncedLocation
  {
    var name := CheckName(input.name);
    var email := CheckEmail(input.email);
    var password := CheckPassword(input.password);
    var role := CheckRole(input.role);
    var errors := ErrorsOf(name) + ErrorsOf(email) + ErrorsOf(password) + ErrorsOf(role);
    if errors == [] then
      Ok(UserData(name.value, email.value, password.value, input.secret, input.approved.GetOr(false),
                  Some(input.createdAt.GetOr(now)), input.address, input.gender, input.lastSyncedLocation, role.value))
    else Err(errors)
  }

  /** A rejected `UserSchema` reports the name field exactly when it is missing, too short or too long. */
  lemma UserSchemaNameErrors(input: UserInput, now: Time)
    ensures var r := ValidateUserSchema(input, now);
      r.Err? ==>
        && (Missing("name") in r.error <==> input.name.None?)
        && (TooShort("name") in r.error <==> input.name.Some? && |input.name.value| < MinUserNameLength)
        && (TooLong("name") in r.error <==> input.name.Some? && |input.name.value| > MaxUserNameLength)
  {
    var r := ValidateUserSchema(input, now);
    if r.Err? {
      var others := ErrorsOf(CheckEmail(input.email)) + ErrorsOf(CheckPassword(input.password)) + ErrorsOf(CheckRole(input.role));
      assert r.error == ErrorsOf(CheckName(input.name)) + others;
      assert forall e :: e in others ==> e.field != "name";
    }
  }

  /** A rejected `UserSchema` reports the email and password fields exactly when they fail. */
  lemma UserSchemaCredentialErrors(input: UserInput, now: Time)
    ensures var r := ValidateUserSchema(input, now);
      r.Err? ==>
        && (Missing("email") in r.error <==> input.email.None?)
        && (Missing("password") in r.error <==> input.password.None?)
        && (TooShort("password") in r.error <==> input.password.Some? && |input.password.value| < MinPasswordLength)
  {
    var r := ValidateUserSchema(input, now);
    if r.Err? {
      var name := ErrorsOf(CheckName(input.name));
      var credentials := ErrorsOf(CheckEmail(input.email)) + ErrorsOf(CheckPassword(input.password));
      var role := ErrorsOf(CheckRole(input.role));
      assert r.error == name + credentials + role;
      assert forall e: FieldError :: e in name + role ==> e.field != "email" && e.field != "password";
    }
  }

  /** A rejected `UserSchema` reports the role field exactly when it is not one of the four roles. */
  lemma UserSchemaRoleErrors(input: UserInput, now: Time)
    ensures var r := ValidateUserSchema(input, now);
      r.Err? ==> (NotAllowed("role") in r.error <==> input.role.Some? && ParseUserRole(input.role.value).None?)
  {
    var r := ValidateUserSchema(input, now);
    if r.Err? {
      var others := ErrorsOf(CheckName(input.name)) + ErrorsOf(CheckEmail(input.email)) + ErrorsOf(CheckPassword(input.password));
      assert r.error == others + ErrorsOf(CheckRole(input.role));
      assert forall e :: e in others ==> e.field != "role";
    }
  }

  /** The fields an update document may set on a user (a `$set` merge). */
  datatype UserPatch = UserPatch(
    name: Option<string>,
    email: Option<string>,
    password: Option<string>,
    approved: Option<bool>,
    role: Option<UserRole>,
    address: Option<string>,
    gender: Option<string>)

  function ApplyUserPatch(u: UserData, p: UserPatch): UserData {
    u.(name := p.name.GetOr(u.name),
       email := p.email.GetOr(u.email),
       password := p.password.GetOr(u.password),
       approved := p.approved.GetOr(u.approved),
       role := p.role.GetOr(u.role),
       address := if p.address.Some? then p.address else u.address,
       gender := if p.gender.Some? then p.gender else u.gender)
  }

  /** The string value a user document holds under a key, as an equality filter sees it. */
  function UserField(u: UserData, key: string): Option<string> {
    if key == "name" then Some(u.name)
    else if key == "email" then Some(u.email)
    else if key == "password" then Some(u.password)
    else if key == "role" then Some(UserRoleName(u.role))
    else if key == "address" then u.address
    else if key == "gender" then u.gender
    else None
  }

  /** An equality filter `{key: value, ...}` over string fields. */
  predicate MatchesFilter(u: UserData, filter: map<string, string>) {
    forall k :: k in filter ==> UserField(u, k) == Some(filter[k])
  }
}
