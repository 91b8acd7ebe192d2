/**
 * The foreign keys among the academic tables and what the database does
 * when a row they point at is deleted. Semesters and groups go with their
 * year, plannings and schedule images with their semester, planning items
 * with their planning or their group (`onDelete('cascade')`); a user's
 * `year_id` and `group_id` become null (`onDelete('set null')`).
 */
module Cascades {
  import opened Wrappers
  import opened Records

  /** The tables a deletion of a year, a semester or a group reaches. */
  datatype Structure = Structure(
    years: map<Id, Year>, semesters: map<Id, Semester>, groups: map<Id, Group>,
    plannings: map<Id, Planning>, items: map<Id, PlanningItem>, images: map<Id, ScheduleImage>,
    users: map<Id, User>)

  function Snapshot(db: Database): Structure
    reads db
  {
    Structure(db.years, db.semesters, db.groups, db.plannings, db.planningItems, db.scheduleImages, db.users)
  }

  /** Every foreign key among these tables names an existing row. */
  predicate Linked(t: Structure)
  {
    && (forall s :: s in t.semesters ==> t.semesters[s].yearId in t.years)
    && (forall g :: g in t.groups ==> t.groups[g].yearId in t.years)
    && (forall p :: p in t.plannings ==> t.plannings[p].semesterId in t.semesters)
    && (forall i :: i in t.items ==> t.items[i].planningId in t.plannings)
    && (forall i :: i in t.items && t.items[i].groupId.Some? ==> t.items[i].groupId.value in t.groups)
    && (forall m :: m in t.images ==> t.images[m].semesterId in t.semesters)
    && (forall u :: u in t.users && t.users[u].yearId.Some? ==> t.users[u].yearId.value in t.years)
    && (forall u :: u in t.users && t.users[u].groupId.Some? ==> t.users[u].groupId.value in t.groups)
  }

  /** The rows of `table` whose keys are not in `gone`. */
  function Without<T>(table: map<Id, T>, gone: set<Id>): (r: map<Id, T>)
    ensures forall k :: k in r <==> k in table && k !in gone
    ensures forall k :: k in r ==> r[k] == table[k]
  {
    map k | k in table && k !in gone :: table[k]
  }

  /** `onDelete('set null')`: a reference to a deleted row becomes null. */
  function Detached(ref: Option<Id>, gone: set<Id>): Option<Id>
  {
    if ref.Some? && ref.value in gone then None else ref
  }

  function NullOut(users: map<Id, User>, years: set<Id>, groups: set<Id>): map<Id, User>
  {
    map u | u in users :: users[u].(yearId := Detached(users[u].yearId, years), groupId := Detached(users[u].groupId, groups))
  }

  /** The semesters deleted with the years `ys`, besides the ones in `ss`. */
  function GoneSemesters(t: Structure, ys: set<Id>, ss: set<Id>): set<Id>
  {
    ss + set s | s in t.semesters && t.semesters[s].yearId in ys
  }

  function GoneGroups(t: Structure, ys: set<Id>, gs: set<Id>): set<Id>
  {
    gs + set g | g in t.groups && t.groups[g].yearId in ys
  }

  function GonePlannings(t: Structure, ss: set<Id>): set<Id>
  {
    set p | p in t.plannings && t.plannings[p].semesterId in ss
  }

  function GoneItems(t: Structure, ps: set<Id>, gs: set<Id>): set<Id>
  {
    set i | i in t.items && (t.items[i].planningId in ps || Detached(t.items[i].groupId, gs) != t.items[i].groupId)
  }

  function GoneImages(t: Structure, ss: set<Id>): set<Id>
  {
    set m | m in t.images && t.images[m].semesterId in ss
  }

  /**
   * Deleting the years `ys`, the semesters `ss` and the groups `gs`, with
   * everything the foreign keys take along.
   */
  function Delete(t: Structure, ys: set<Id>, ss: set<Id>, gs: set<Id>): Structure
  {
    var ss' := GoneSemesters(t, ys, ss);
    var gs' := GoneGroups(t, ys, gs);
    var ps := GonePlannings(t, ss');
    Structure(
      Without(t.years, ys), Without(t.semesters, ss'), Without(t.groups, gs'), Without(t.plannings, ps),
      Without(t.items, GoneItems(t, ps, gs')), Without(t.images, GoneImages(t, ss')), NullOut(t.users, ys, gs'))
  }

  lemma WithoutNothing<T>(table: map<Id, T>)
    ensures Without(table, {}) == table
  {
  }

  lemma WithoutOne<T>(table: map<Id, T>, k: Id)
    ensures Without(table, {k}) == table - {k}
  {
  }

  lemma NullOutNothing(users: map<Id, User>)
    ensures NullOut(users, {}, {}) == users
  {
    assert forall u :: u in users ==> NullOut(users, {}, {})[u] == users[u];
  }

  /** A semester or a group survives exactly when it is not named and its year survives. */
  lemma DeleteFollowsYears(t: Structure, ys: set<Id>, ss: set<Id>, gs: set<Id>)
    requires Linked(t)
    ensures var r := Delete(t, ys, ss, gs);
            && r.years == t.years - ys
            && (forall s :: s in r.semesters <==> s in t.semesters && s !in ss && t.semesters[s].yearId in r.years)
            && (forall g :: g in r.groups <==> g in t.groups && g !in gs && t.groups[g].yearId in r.years)
  {
    assert Delete(t, ys, ss, gs).years == t.years - ys;
  }

  /** A planning or a schedule image survives exactly when its semester does. */
  lemma DeleteFollowsSemesters(t: Structure, ys: set<Id>, ss: set<Id>, gs: set<Id>)
    requires Linked(t)
    ensures var r := Delete(t, ys, ss, gs);
            && (forall p :: p in r.plannings <==> p in t.plannings && t.plannings[p].semesterId in r.semesters)
            && (forall m :: m in r.images <==> m in t.images && t.images[m].semesterId in r.semesters)
  {
  }

  /** A planning item survives exactly when its planning and its group do. */
  lemma DeleteFollowsPlannings(t: Structure, ys: set<Id>, ss: set<Id>, gs: set<Id>)
    requires Linked(t)
    ensures var r := Delete(t, ys, ss, gs);
            forall i :: i in r.items <==>
              i in t.items && t.items[i].planningId in r.plannings
              && (t.items[i].groupId.Some? ==> t.items[i].groupId.value in r.groups)
  {
  }

  /**
   * Rows that survive are unchanged, every user stays, and a user's year or
   * group becomes null exactly when that row was deleted.
   */
  lemma DeleteKeepsSurvivors(t: Structure, ys: set<Id>, ss: set<Id>, gs: set<Id>)
    ensures var r := Delete(t, ys, ss, gs);
            && (forall s :: s in r.semesters ==> r.semesters[s] == t.semesters[s])
            && (forall g :: g in r.groups ==> r.groups[g] == t.groups[g])
            && (forall p :: p in r.plannings ==> r.plannings[p] == t.plannings[p])
            && (forall i :: i in r.items ==> r.items[i] == t.items[i])
            && (forall m :: m in r.images ==> r.images[m] == t.images[m])
            && r.users.Keys == t.users.Keys
            && (forall u :: u in r.users ==>
                  r.users[u] == t.users[u].(yearId := r.users[u].yearId, groupId := r.users[u].groupId))
            && (forall u :: u in r.users && t.users[u].yearId.Some? && t.users[u].yearId.value in t.years ==>
                  r.users[u].yearId == (if t.users[u].yearId.value in r.years then t.users[u].yearId else None))
            && (forall u :: u in r.users && t.users[u].groupId.Some? && t.users[u].groupId.value in t.groups ==>
                  r.users[u].groupId == (if t.users[u].groupId.value in r.groups then t.users[u].groupId else None))
  {
  }

  /** Writes the tables of `t` into the database. */
  method WriteBack(db: Database, t: Structure)
    modifies db`years, db`semesters, db`groups, db`plannings, db`planningItems, db`scheduleImages, db`users
    ensures Snapshot(db) == t
  {
    db.years, db.semesters, db.groups, db.plannings := t.years, t.semesters, t.groups, t.plannings;
    db.planningItems, db.scheduleImages, db.users := t.items, t.images, t.users;
  }

  /** A deletion leaves no foreign key dangling. */
  lemma DeleteKeepsLinked(t: Structure, ys: set<Id>, ss: set<Id>, gs: set<Id>)
    requires Linked(t)
    ensures Linked(Delete(t, ys, ss, gs))
  {
    DeleteFollowsYears(t, ys, ss, gs);
    DeleteFollowsSemesters(t, ys, ss, gs);
    DeleteFollowsPlannings(t, ys, ss, gs);
    DeleteKeepsUsersLinked(t, ys, ss, gs);
  }

  /** After a deletion every user's year and group exist or are null. */
  lemma DeleteKeepsUsersLinked(t: Structure, ys: set<Id>, ss: set<Id>, gs: set<Id>)
    requires Linked(t)
    ensures var r := Delete(t, ys, ss, gs);
            && (forall u :: u in r.users && r.users[u].yearId.Some? ==> r.users[u].yearId.value in r.years)
            && (forall u :: u in r.users && r.users[u].groupId.Some? ==> r.users[u].groupId.value in r.groups)
  {
  }
}
