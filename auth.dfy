/**
 * Sign-in and sign-out for students and administrators, the profile
 * payload, and the reset of a forgotten password. Password hashing, the
 * e-mail syntax check and the reset-token broker are parameters.
 */
module Auth {
  import opened Wrappers
  import opened Php
  import opened Records
  import opened Http
  import opened Validation

  /** `User::where('email', ...)->first()`. */
  method FindByEmail(users: map<Id, User>, email: string) returns (r: Option<Id>)
    ensures r.None? <==> AccountsWithEmail(users, email) == {}
    ensures r.Some? ==> r.value in AccountsWithEmail(users, email)
  {
    var rest := users.Keys;
    r := None;
    while rest != {}
      invariant rest <= users.Keys
      invariant r.Some? ==> r.value in AccountsWithEmail(users, email)
      invariant r.None? ==> forall id :: id in users.Keys - rest ==> users[id].email != email
      decreases |rest|
    {
      var id :| id in rest;
      if r.None? && users[id].email == email {
        r := Some(id);
      }
      rest := rest - {id};
    }
    if r.None? {
      assert users.Keys - rest == users.Keys;
    }
  }

  datatype LoginRequest = LoginRequest(email: Field<string>, password: Field<string>)

  /** `email: required|email`, `password: required|string`. */
  predicate LoginValid(q: LoginRequest, isEmail: string -> bool)
  {
    RequiredString(q.email) && isEmail(q.email.value) && RequiredString(q.password)
  }

  const InvalidCredentials: Response := Failure(401, "INVALID_CREDENTIALS")
  const AccountInactive: Response := Failure(403, "ACCOUNT_INACTIVE")

  /**
   * The login ladder: validation, then the credentials (an unknown e-mail
   * and a wrong password give the same answer), then the active flag.
   */
  function LoginCheck(q: LoginRequest, account: Option<User>, isEmail: string -> bool,
                      check: (string, string) -> bool): (r: Response)
    ensures !LoginValid(q, isEmail) ==> r == ValidationError
    ensures LoginValid(q, isEmail) && (account.None? || !check(q.password.value, account.value.password)) ==>
              r == InvalidCredentials
    ensures (LoginValid(q, isEmail) && account.Some? && check(q.password.value, account.value.password)
             && !account.value.isActive) ==> r == AccountInactive
    ensures r == Ok <==>
              LoginValid(q, isEmail) && account.Some? && check(q.password.value, account.value.password)
              && account.value.isActive
  {
    if !LoginValid(q, isEmail) then ValidationError
    else if account.None? || !check(q.password.value, account.value.password) then InvalidCredentials
    else if !account.value.isActive then AccountInactive
    else Ok
  }

  /** An unknown e-mail cannot be told apart from a wrong password. */
  lemma UnknownEmailLooksLikeWrongPassword(q: LoginRequest, u: User, isEmail: string -> bool,
                                            check: (string, string) -> bool)
    requires q.password.Given? && !check(q.password.value, u.password)
    ensures LoginCheck(q, None, isEmail, check) == LoginCheck(q, Some(u), isEmail, check)
  {
  }

  /** The active flag is looked at only after the password: an inactive account with the wrong password gets 401. */
  lemma InactiveNeedsPasswordFirst(q: LoginRequest, u: User, isEmail: string -> bool,
                                   check: (string, string) -> bool)
    requires LoginValid(q, isEmail) && !u.isActive
    ensures LoginCheck(q, Some(u), isEmail, check) ==
            if check(q.password.value, u.password) then AccountInactive else InvalidCredentials
  {
  }

  datatype YearSummary = YearSummary(id: Id, yearNumber: int, name: Text)
  datatype GroupSummary = GroupSummary(id: Id, name: string, code: string)

  /**
   * The extra keys of a student's payload: the two ids, and a summary key
   * for each id that is set, whose value is null when the row is missing.
   */
  datatype StudentPart = StudentPart(
    yearId: Option<Id>, groupId: Option<Id>, year: Option<Option<YearSummary>>, group: Option<Option<GroupSummary>>)

  datatype Payload = Payload(
    id: Id, name: string, email: string, role: Role, locale: string, mustChangePassword: bool,
    student: Option<StudentPart>)

  /** The `user` object of `login` and `me`. */
  function PayloadOf(years: map<Id, Year>, groups: map<Id, Group>, id: Id, u: User): (p: Payload)
    ensures p.id == id && p.name == u.name && p.email == u.email && p.role == u.role
    ensures p.locale == u.locale && p.mustChangePassword == u.mustChangePassword
    ensures p.student.Some? <==> u.role == Student
    ensures p.student.Some? ==>
              && p.student.value.yearId == u.yearId && p.student.value.groupId == u.groupId
              && (p.student.value.year.Some? <==> u.yearId.Some?)
              && (p.student.value.group.Some? <==> u.groupId.Some?)
              && (u.yearId.Some? ==>
                    (p.student.value.year.value.Some? <==> u.yearId.value in years)
                    && (p.student.value.year.value.Some? ==> p.student.value.year.value.value.id == u.yearId.value))
              && (u.groupId.Some? ==>
                    (p.student.value.group.value.Some? <==> u.groupId.value in groups)
                    && (p.student.value.group.value.Some? ==>
                          p.student.value.group.value.value.code == groups[u.groupId.value].code))
  {
    var student :=
      if u.role != Student then None
      else
        var year :=
          if u.yearId.None? then None
          else if u.yearId.value in years then
            var y := years[u.yearId.value];
            Some(Some(YearSummary(u.yearId.value, y.yearNumber, y.name)))
          else Some(None);
        var group :=
          if u.groupId.None? then None
          else if u.groupId.value in groups then
            var g := groups[u.groupId.value];
            Some(Some(GroupSummary(u.groupId.value, g.name, g.code)))
          else Some(None);
        Some(StudentPart(u.yearId, u.groupId, year, group));
    Payload(id, u.name, u.email, u.role, u.locale, u.mustChangePassword, student)
  }

  /** An administrator's payload never carries year or group data, whatever the row holds. */
  lemma AdminPayloadIgnoresPlacement(years: map<Id, Year>, groups: map<Id, Group>, id: Id, u: User, y: Option<Id>, g: Option<Id>)
    requires u.role == Admin
    ensures PayloadOf(years, groups, id, u) == PayloadOf(years, groups, id, u.(yearId := y, groupId := g))
    ensures PayloadOf(years, groups, id, u).student.None?
  {
  }

  /**
   * `login`: on success a new token for the account is issued and the
   * payload returned; on any failure no token is issued.
   */
  method Login(db: Database, q: LoginRequest, isEmail: string -> bool, check: (string, string) -> bool)
    returns (r: Response, account: Option<Id>, token: Option<Id>, payload: Option<Payload>)
    modifies db`tokens
    ensures !LoginValid(q, isEmail) ==> account.None?
    ensures LoginValid(q, isEmail) ==>
              (account.None? <==> AccountsWithEmail(db.users, q.email.value) == {})
              && (account.Some? ==> account.value in AccountsWithEmail(db.users, q.email.value))
    ensures r == LoginCheck(q, if account.Some? then Some(db.users[account.value]) else None, isEmail, check)
    ensures r != Ok ==> token.None? && payload.None? && db.tokens == old(db.tokens)
    ensures r == Ok ==>
              account.Some? && token.Some? && token.value !in old(db.tokens)
              && db.tokens == old(db.tokens)[token.value := account.value]
              && payload == Some(PayloadOf(db.years, db.groups, account.value, db.users[account.value]))
  {
    account, token, payload := None, None, None;
    if !LoginValid(q, isEmail) {
      return ValidationError, account, token, payload;
    }
    account := FindByEmail(db.users, q.email.value);
    var user := if account.Some? then Some(db.users[account.value]) else None;
    r := LoginCheck(q, user, isEmail, check);
    if r != Ok {
      return;
    }
    var t := NextId(db.tokens.Keys);
    db.tokens := db.tokens[t := account.value];
    token := Some(t);
    payload := Some(PayloadOf(db.years, db.groups, account.value, db.users[account.value]));
  }

  /** `logout`: revokes the token of this request and no other. */
  method Logout(db: Database, current: Id) returns (r: Response)
    modifies db`tokens
    ensures r == Ok && db.tokens == old(db.tokens) - {current}
  {
    db.tokens := db.tokens - {current};
    return Ok;
  }

  /** `me`: the payload of the authenticated user. */
  function Me(years: map<Id, Year>, groups: map<Id, Group>, users: map<Id, User>, current: Id): (p: Payload)
    requires current in users
    ensures p.id == current && p.email == users[current].email
    ensures p.student.Some? <==> users[current].role == Student
  {
    PayloadOf(years, groups, current, users[current])
  }

  datatype ResetRequest = ResetRequest(
    token: Field<string>, email: Field<string>, password: Field<string>, passwordConfirmation: Field<string>)

  /** `token: required`, `email: required|email`, `password: required|string|min:8|confirmed`. */
  predicate ResetValid(q: ResetRequest, isEmail: string -> bool)
  {
    && RequiredString(q.token)
    && RequiredString(q.email) && isEmail(q.email.value)
    && RequiredString(q.password) && |q.password.value| >= 8
    && q.passwordConfirmation == q.password
  }

  /**
   * `resetPassword`: the broker accepts the token for the account with that
   * e-mail, and then the new hash is stored and the forced-change flag
   * cleared; any refusal is 400 PASSWORD_RESET_FAILED.
   */
  method ResetPassword(db: Database, q: ResetRequest, isEmail: string -> bool,
                       tokenValid: (Id, string) -> bool, hash: string -> string)
    returns (r: Response, account: Option<Id>)
    modifies db`users
    ensures !ResetValid(q, isEmail) ==> r == ValidationError && db.users == old(db.users)
    ensures ResetValid(q, isEmail) ==>
              (account.None? <==> AccountsWithEmail(old(db.users), q.email.value) == {})
              && (account.Some? ==> account.value in AccountsWithEmail(old(db.users), q.email.value))
    ensures ResetValid(q, isEmail) && (account.None? || !tokenValid(account.value, q.token.value)) ==>
              r == Failure(400, "PASSWORD_RESET_FAILED") && db.users == old(db.users)
    ensures ResetValid(q, isEmail) && account.Some? && tokenValid(account.value, q.token.value) ==>
              r == Ok &&
              db.users == old(db.users)[account.value :=
                old(db.users)[account.value].(password := hash(q.password.value), mustChangePassword := false)]
  {
    account := None;
    if !ResetValid(q, isEmail) {
      return ValidationError, account;
    }
    account := FindByEmail(db.users, q.email.value);
    if account.None? || !tokenValid(account.value, q.token.value) {
      return Failure(400, "PASSWORD_RESET_FAILED"), account;
    }
    var u := db.users[account.value];
    db.users := db.users[account.value := u.(password := hash(q.password.value), mustChangePassword := false)];
    r := Ok;
  }
}
