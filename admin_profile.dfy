/** The signed-in administrator's own profile: name, locale and password. */
module AdminProfile {
  import opened Wrappers
  import opened Php
  import opened Records
  import opened Http
  import opened Validation

  const Locales: set<string> := {"fr", "ar", "en"}

  datatype ProfileRequest = ProfileRequest(name: Field<string>, locale: Field<string>)

  /** `name: sometimes|string|max:255`, `locale: sometimes|string|in:fr,ar,en`. */
  predicate ProfileValid(q: ProfileRequest)
  {
    SometimesMax(q.name, 255) && SometimesIn(q.locale, Locales)
  }

  /** The user after `update`: only name and locale can differ, and a new locale is one of the three. */
  function ApplyProfile(u: User, q: ProfileRequest): (v: User)
    requires ProfileValid(q)
    ensures v.(name := u.name, locale := u.locale) == u
    ensures v.name == q.name.OrElse(u.name) && v.locale == q.locale.OrElse(u.locale)
    ensures v.locale == u.locale || v.locale in Locales
  {
    u.(name := q.name.OrElse(u.name), locale := q.locale.OrElse(u.locale))
  }

  /** A request that names neither field leaves the profile as it is. */
  lemma EmptyProfileRequestIsIdentity(u: User)
    ensures ApplyProfile(u, ProfileRequest(Absent, Absent)) == u
  {
  }

  /** `update` on the authenticated user `current`. */
  method UpdateProfile(db: Database, current: Id, q: ProfileRequest) returns (r: Response)
    requires current in db.users
    modifies db`users
    ensures !ProfileValid(q) ==> r == ValidationError && db.users == old(db.users)
    ensures ProfileValid(q) ==> r == Ok && db.users == old(db.users)[current := ApplyProfile(old(db.users[current]), q)]
  {
    if !ProfileValid(q) {
      return ValidationError;
    }
    db.users := db.users[current := ApplyProfile(db.users[current], q)];
    return Ok;
  }

  datatype PasswordRequest = PasswordRequest(
    currentPassword: Field<string>, password: Field<string>, passwordConfirmation: Field<string>)

  /** `current_password: required|string`, `password: required|string|min:8|confirmed`. */
  predicate PasswordValid(q: PasswordRequest)
  {
    RequiredString(q.currentPassword) && RequiredString(q.password) && |q.password.value| >= 8
    && q.passwordConfirmation == q.password
  }

  const InvalidPassword: Response := Failure(422, "INVALID_PASSWORD")

  /** The answer of `changePassword`: validation first, then the current password. */
  function PasswordCheck(q: PasswordRequest, u: User, check: (string, string) -> bool): (r: Response)
    ensures !PasswordValid(q) ==> r == ValidationError
    ensures PasswordValid(q) && !check(q.currentPassword.value, u.password) ==> r == InvalidPassword
    ensures r == Ok <==> PasswordValid(q) && check(q.currentPassword.value, u.password)
  {
    if !PasswordValid(q) then ValidationError
    else if !check(q.currentPassword.value, u.password) then InvalidPassword
    else Ok
  }

  /** A too-short new password is refused before the current one is checked. */
  lemma ShortPasswordRefusedFirst(q: PasswordRequest, u: User, check: (string, string) -> bool)
    requires q.password.Given? && |q.password.value| < 8
    ensures PasswordCheck(q, u, check) == ValidationError
  {
  }

  /**
   * `changePassword`: on success the new hash replaces the old one and the
   * forced-change flag is cleared; otherwise the user is unchanged.
   */
  method ChangePassword(db: Database, current: Id, q: PasswordRequest, check: (string, string) -> bool,
                        hash: string -> string) returns (r: Response)
    requires current in db.users
    modifies db`users
    ensures r == PasswordCheck(q, old(db.users[current]), check)
    ensures r != Ok ==> db.users == old(db.users)
    ensures r == Ok ==> db.users == old(db.users)[current :=
              old(db.users[current]).(password := hash(q.password.value), mustChangePassword := false)]
  {
    var u := db.users[current];
    r := PasswordCheck(q, u, check);
    if r != Ok {
      return;
    }
    db.users := db.users[current := u.(password := hash(q.password.value), mustChangePassword := false)];
  }
}
