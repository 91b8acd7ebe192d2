/**
 * The administrator's management of student accounts. Every action on one
 * account first checks that it belongs to a student; accounts are
 * deactivated, never deleted.
 */
module AdminStudents {
  import opened Wrappers
  import opened Php
  import opened Records
  import opened Http
  import opened Validation
  import opened Sorting

  const InvalidUser: Response := Failure(400, "INVALID_USER")

  /** The guard before each per-account action: `findOrFail`, then the role. */
  function StudentGuard(users: map<Id, User>, id: Id): (r: Option<Response>)
    ensures r.None? <==> id in users && users[id].role == Student
    ensures id !in users ==> r == Some(ModelNotFound)
    ensures id in users && users[id].role != Student ==> r == Some(InvalidUser)
  {
    if id !in users then Some(ModelNotFound)
    else if users[id].role != Student then Some(InvalidUser)
    else None
  }

  datatype StoreRequest = StoreRequest(
    name: Field<string>, email: Field<string>, password: Field<string>, mustChangePassword: Field<bool>)

  /** `email` is a syntactically valid address that no account (other than `self`) uses. */
  predicate FreeEmail(users: map<Id, User>, email: string, isEmail: string -> bool, self: Option<Id>)
  {
    isEmail(email) && (if self.Some? then AccountsWithEmail(users, email) <= {self.value} else AccountsWithEmail(users, email) == {})
  }

  predicate StoreValid(users: map<Id, User>, q: StoreRequest, isEmail: string -> bool)
  {
    && RequiredMax(q.name, 255)
    && RequiredString(q.email) && FreeEmail(users, q.email.value, isEmail, None)
    && RequiredString(q.password) && |q.password.value| >= 8
    && (q.mustChangePassword.Has() ==> q.mustChangePassword.Given?)
  }

  /** The account `store` creates. */
  function NewStudent(id: Id, q: StoreRequest, hash: string -> string): (u: User)
    requires q.name.Given? && q.email.Given? && q.password.Given?
    ensures u.role == Student && u.isActive && u.mustChangePassword == q.mustChangePassword.OrElse(true)
    ensures u.id == id && u.name == q.name.value && u.email == q.email.value && u.password == hash(q.password.value)
    ensures u.locale == "fr" && u.yearId.None? && u.groupId.None?
  {
    User(id, q.name.value, q.email.value, hash(q.password.value), Student, "fr",
         q.mustChangePassword.OrElse(true), true, None, None)
  }

  method Store(db: Database, q: StoreRequest, isEmail: string -> bool, hash: string -> string)
    returns (r: Response, id: Id)
    modifies db`users
    ensures !old(StoreValid(db.users, q, isEmail)) ==> r == ValidationError && db.users == old(db.users)
    ensures old(StoreValid(db.users, q, isEmail)) ==>
              r == Created && id !in old(db.users) && db.users == old(db.users)[id := NewStudent(id, q, hash)]
    ensures EmailsUnique(old(db.users)) ==> EmailsUnique(db.users)
  {
    id := 1;
    if !StoreValid(db.users, q, isEmail) {
      return ValidationError, id;
    }
    id := NextId(db.users.Keys);
    db.users := db.users[id := NewStudent(id, q, hash)];
    r := Created;
  }

  datatype UpdateRequest = UpdateRequest(name: Field<string>, email: Field<string>, isActive: Field<bool>)

  /** `email: sometimes|email|unique:users,email,{id}`: the account may keep its own address. */
  predicate UpdateValid(users: map<Id, User>, id: Id, q: UpdateRequest, isEmail: string -> bool)
  {
    && SometimesMax(q.name, 255)
    && (q.email.Has() ==> q.email.Given? && FreeEmail(users, q.email.value, isEmail, Some(id)))
    && (q.isActive.Has() ==> q.isActive.Given?)
  }

  /** The account after `update`: only name, email and is_active can differ. */
  function ApplyUpdate(u: User, q: UpdateRequest): (v: User)
    ensures v.(name := u.name, email := u.email, isActive := u.isActive) == u
    ensures v.name == q.name.OrElse(u.name) && v.email == q.email.OrElse(u.email)
    ensures v.isActive == q.isActive.OrElse(u.isActive)
  {
    u.(name := q.name.OrElse(u.name), email := q.email.OrElse(u.email), isActive := q.isActive.OrElse(u.isActive))
  }

  /** A validated update keeps e-mail addresses unique. */
  lemma UpdateKeepsEmailsUnique(users: map<Id, User>, id: Id, q: UpdateRequest, isEmail: string -> bool)
    requires id in users && EmailsUnique(users) && UpdateValid(users, id, q, isEmail)
    ensures EmailsUnique(users[id := ApplyUpdate(users[id], q)])
  {
    var after := users[id := ApplyUpdate(users[id], q)];
    forall a, b | a in after && b in after && after[a].email == after[b].email
      ensures a == b
    {
      if q.email.Given? && (a == id || b == id) {
        var other := if a == id then b else a;
        assert other in AccountsWithEmail(users, q.email.value) || other == id;
      }
    }
  }

  method Update(db: Database, id: Id, q: UpdateRequest, isEmail: string -> bool) returns (r: Response)
    modifies db`users
    ensures StudentGuard(old(db.users), id).Some? ==> r == StudentGuard(old(db.users), id).value && db.users == old(db.users)
    ensures StudentGuard(old(db.users), id).None? && !old(UpdateValid(db.users, id, q, isEmail)) ==>
              r == ValidationError && db.users == old(db.users)
    ensures StudentGuard(old(db.users), id).None? && old(UpdateValid(db.users, id, q, isEmail)) ==>
              r == Ok && db.users == old(db.users)[id := ApplyUpdate(old(db.users[id]), q)]
    ensures EmailsUnique(old(db.users)) ==> EmailsUnique(db.users)
  {
    var guard := StudentGuard(db.users, id);
    if guard.Some? {
      return guard.value;
    }
    if !UpdateValid(db.users, id, q, isEmail) {
      return ValidationError;
    }
    if EmailsUnique(db.users) {
      UpdateKeepsEmailsUnique(db.users, id, q, isEmail);
    }
    db.users := db.users[id := ApplyUpdate(db.users[id], q)];
    return Ok;
  }

  /** `destroy`: the student's account is kept and only deactivated. */
  method Destroy(db: Database, id: Id) returns (r: Response)
    modifies db`users
    ensures StudentGuard(old(db.users), id).Some? ==> r == StudentGuard(old(db.users), id).value && db.users == old(db.users)
    ensures StudentGuard(old(db.users), id).None? ==>
              r == Ok && db.users == old(db.users)[id := old(db.users[id]).(isActive := false)]
    ensures db.users.Keys == old(db.users.Keys)
  {
    var guard := StudentGuard(db.users, id);
    if guard.Some? {
      return guard.value;
    }
    db.users := db.users[id := db.users[id].(isActive := false)];
    return Ok;
  }

  datatype ResetRequest = ResetRequest(password: Field<string>, mustChangePassword: Field<bool>)

  predicate ResetValid(q: ResetRequest)
  {
    RequiredString(q.password) && |q.password.value| >= 8 && (q.mustChangePassword.Has() ==> q.mustChangePassword.Given?)
  }

  /** `resetPassword`: a new hash, and the forced-change flag set unless the request says otherwise. */
  method ResetPassword(db: Database, id: Id, q: ResetRequest, hash: string -> string) returns (r: Response)
    modifies db`users
    ensures StudentGuard(old(db.users), id).Some? ==> r == StudentGuard(old(db.users), id).value && db.users == old(db.users)
    ensures StudentGuard(old(db.users), id).None? && !ResetValid(q) ==> r == ValidationError && db.users == old(db.users)
    ensures StudentGuard(old(db.users), id).None? && ResetValid(q) ==>
              r == Ok && db.users == old(db.users)[id := old(db.users[id]).(
                password := hash(q.password.value), mustChangePassword := q.mustChangePassword.OrElse(true))]
  {
    var guard := StudentGuard(db.users, id);
    if guard.Some? {
      return guard.value;
    }
    if !ResetValid(q) {
      return ValidationError;
    }
    var u := db.users[id];
    db.users := db.users[id := u.(password := hash(q.password.value), mustChangePassword := q.mustChangePassword.OrElse(true))];
    return Ok;
  }

  /** `module_ids: required|array`, each an existing module; `required` refuses an empty list. */
  predicate ModulesValid(modules: set<Id>, ids: Field<seq<Id>>)
  {
    ids.Given? && |ids.value| >= 1 && forall i :: 0 <= i < |ids.value| ==> ids.value[i] in modules
  }

  /** `assignModules`: `sync` makes the enrolment set exactly the listed modules. */
  method AssignModules(db: Database, id: Id, ids: Field<seq<Id>>) returns (r: Response)
    modifies db`enrollments
    ensures StudentGuard(db.users, id).Some? ==> r == StudentGuard(db.users, id).value && db.enrollments == old(db.enrollments)
    ensures StudentGuard(db.users, id).None? && !ModulesValid(db.modules.Keys, ids) ==>
              r == ValidationError && db.enrollments == old(db.enrollments)
    ensures StudentGuard(db.users, id).None? && ModulesValid(db.modules.Keys, ids) ==>
              r == Ok && db.enrollments == old(db.enrollments)[id := set i | i in ids.value]
    ensures r == Ok ==> EnrolledModules(db.enrollments, id) == (set i | i in ids.value)
    ensures forall s :: s != id ==> EnrolledModules(db.enrollments, s) == EnrolledModules(old(db.enrollments), s)
  {
    var guard := StudentGuard(db.users, id);
    if guard.Some? {
      return guard.value;
    }
    if !ModulesValid(db.modules.Keys, ids) {
      return ValidationError;
    }
    db.enrollments := db.enrollments[id := set i | i in ids.value];
    return Ok;
  }

  /** The audit rows of one student, in table order. */
  function LogsByStudent(logs: seq<DownloadLog>, student: Id): (r: seq<DownloadLog>)
    ensures |r| <= |logs|
    ensures forall i :: 0 <= i < |r| ==> r[i].studentId == student
    ensures forall x :: x in multiset(r) <==> x in multiset(logs) && x.studentId == student
  {
    if logs == [] then []
    else
      assert logs == [logs[0]] + logs[1..];
      (if logs[0].studentId == student then [logs[0]] else []) + LogsByStudent(logs[1..], student)
  }

  /** The rows `activity` lists: that student's 50 newest downloads, newest first. */
  function Activity(logs: seq<DownloadLog>, student: Id): (r: seq<DownloadLog>)
    ensures |r| <= 50
  {
    Take(SortBy(LogsByStudent(logs, student), NewestFirst), 50)
  }

  /** Every listed row is the student's own, and the list runs from newest to oldest. */
  lemma ActivityNewestFirst(logs: seq<DownloadLog>, student: Id)
    ensures var r := Activity(logs, student);
            && (forall i :: 0 <= i < |r| ==> r[i].studentId == student)
            && (forall i, j :: 0 <= i < j < |r| ==> r[i].downloadedAt >= r[j].downloadedAt)
  {
    var mine := LogsByStudent(logs, student);
    var sorted := SortBy(mine, NewestFirst);
    SortBySortedPermutation(mine, NewestFirst);
    TakeSortedKeepsFirst(sorted, 50, NewestFirst);
    var r := Activity(logs, student);
    forall i, j | 0 <= i < j < |r|
      ensures r[i].downloadedAt >= r[j].downloadedAt
    {
      assert KeyLe(NewestFirst(r[i]), NewestFirst(r[j]));
    }
    forall i | 0 <= i < |r|
      ensures r[i].studentId == student
    {
      assert r[i] == sorted[i];
      assert r[i] in multiset(sorted);
      assert r[i] in multiset(mine);
    }
  }

  /**
   * The list holds only the student's rows, all of them when there are at
   * most 50, and no dropped row is newer than the last listed one.
   */
  lemma ActivityKeepsNewest(logs: seq<DownloadLog>, student: Id)
    ensures var r := Activity(logs, student);
            var mine := LogsByStudent(logs, student);
            && multiset(r) <= multiset(mine)
            && (|mine| <= 50 ==> multiset(r) == multiset(mine))
            && (forall x :: x in multiset(mine) - multiset(r) ==> |r| == 50 && x.downloadedAt <= r[49].downloadedAt)
  {
    var mine := LogsByStudent(logs, student);
    var sorted := SortBy(mine, NewestFirst);
    SortBySortedPermutation(mine, NewestFirst);
    TakeSortedKeepsFirst(sorted, 50, NewestFirst);
    var r := Activity(logs, student);
    assert sorted == r + sorted[|r|..];
    assert multiset(sorted) == multiset(r) + multiset(sorted[|r|..]);
    forall x: DownloadLog | x in multiset(mine) - multiset(r)
      ensures |r| == 50 && x.downloadedAt <= r[49].downloadedAt
    {
      assert KeyLe(NewestFirst(r[49]), NewestFirst(x));
    }
  }

  datatype ActivityResult = Listed(rows: seq<DownloadLog>) | Refused(response: Response)

  /** `activity`: the guard, then the listing. */
  function ActivityOf(users: map<Id, User>, logs: seq<DownloadLog>, id: Id): (r: ActivityResult)
    ensures r.Listed? <==> StudentGuard(users, id).None?
    ensures r.Refused? ==> r.response == StudentGuard(users, id).value
    ensures r.Listed? ==> r.rows == Activity(logs, id)
  {
    var guard := StudentGuard(users, id);
    if guard.Some? then Refused(guard.value) else Listed(Activity(logs, id))
  }
}
