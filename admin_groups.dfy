/**
 * The administrator's registry of student groups and the group code
 * "SPEC{speciality_id}-Y{year_id}-{name}" derived from a group's key.
 */
module AdminGroups {
  import opened Wrappers
  import opened Php
  import opened Records
  import opened Http
  import opened Validation
  import opened Cascades

  /** The code `store` and `update` give a group. */
  function GroupCode(speciality: nat, year: nat, name: string): string
  {
    "SPEC" + NatToString(speciality) + "-Y" + NatToString(year) + "-" + name
  }

  /** A run of digits followed by `sep`: the number and what follows `sep`. */
  function NumberThen(s: string, sep: string): Option<(nat, string)>
  {
    var a := DigitRun(s);
    var r := s[|a|..];
    if a == [] || !StartsWith(r, sep) then None else Some((DigitsValue(a), r[|sep|..]))
  }

  /** Reads the speciality, year and name back out of a group code. */
  function ParseCode(c: string): Option<(nat, nat, string)>
  {
    if !StartsWith(c, "SPEC") then None
    else
      match NumberThen(c[4..], "-Y")
      case None => None
      case Some((speciality, r)) =>
        match NumberThen(r, "-")
        case None => None
        case Some((year, name)) => Some((speciality, year, name))
  }

  lemma DigitRunOfRendered(n: nat, rest: string)
    requires rest != [] && !IsDigit(rest[0])
    ensures DigitRun(NatToString(n) + rest) == NatToString(n)
  {
    var d := NatToString(n);
    var t := d + rest;
    assert t[..|d|] == d;
    DigitRunOfRun(t, |d|);
  }

  /** A rendered number followed by `sep` reads back as that number and what follows. */
  lemma NumberThenRendered(n: nat, sep: string, rest: string)
    requires sep != [] && !IsDigit(sep[0])
    ensures NumberThen(NatToString(n) + (sep + rest), sep) == Some((n, rest))
  {
    var d := NatToString(n);
    DigitRunOfRendered(n, sep + rest);
    var r := (d + (sep + rest))[|d|..];
    assert r == sep + rest;
    assert r[..|sep|] == sep && r[|sep|..] == rest;
    NatToStringValue(n);
  }

  /** Parsing a code gives back the key it was made from. */
  lemma ParseGroupCode(s: nat, y: nat, name: string)
    ensures ParseCode(GroupCode(s, y, name)) == Some((s, y, name))
  {
    var a, b := NatToString(s), NatToString(y);
    var c := GroupCode(s, y, name);
    var r1 := a + ("-Y" + (b + ("-" + name)));
    assert c == "SPEC" + r1;
    assert c[..4] == "SPEC" && c[4..] == r1;
    NumberThenRendered(s, "-Y", b + ("-" + name));
    NumberThenRendered(y, "-", name);
  }

  /** Different keys never share a code. */
  lemma GroupCodeInjective(s1: nat, y1: nat, n1: string, s2: nat, y2: nat, n2: string)
    ensures GroupCode(s1, y1, n1) == GroupCode(s2, y2, n2) ==> s1 == s2 && y1 == y2 && n1 == n2
  {
    ParseGroupCode(s1, y1, n1);
    ParseGroupCode(s2, y2, n2);
  }

  predicate HasGroup(groups: map<Id, Group>, s: Id, y: Id, name: string)
  {
    exists g :: g in groups && groups[g].specialityId == s && groups[g].yearId == y && groups[g].name == name
  }

  predicate CodeTaken(groups: map<Id, Group>, code: string)
  {
    exists g :: g in groups && groups[g].code == code
  }

  /** The unique index on (speciality_id, year_id, name). */
  predicate GroupsUnique(groups: map<Id, Group>)
  {
    forall a, b ::
      (a in groups && b in groups && groups[a].specialityId == groups[b].specialityId
       && groups[a].yearId == groups[b].yearId && groups[a].name == groups[b].name) ==> a == b
  }

  /** The unique index on `code`. */
  predicate CodesUnique(groups: map<Id, Group>)
  {
    forall a, b :: (a in groups && b in groups && groups[a].code == groups[b].code) ==> a == b
  }

  /** Every group's code is the one derived from its own key. */
  predicate CodesFollowKeys(groups: map<Id, Group>)
  {
    forall g :: g in groups ==> groups[g].code == GroupCode(groups[g].specialityId, groups[g].yearId, groups[g].name)
  }

  /**
   * While codes follow keys, a key that is free has a free code, so the
   * unique index on `code` can never reject a group that passed the
   * duplicate check.
   */
  lemma FreeKeyHasFreeCode(groups: map<Id, Group>, s: Id, y: Id, name: string)
    requires CodesFollowKeys(groups) && !HasGroup(groups, s, y, name)
    ensures !CodeTaken(groups, GroupCode(s, y, name))
  {
    if CodeTaken(groups, GroupCode(s, y, name)) {
      var g :| g in groups && groups[g].code == GroupCode(s, y, name);
      GroupCodeInjective(s, y, name, groups[g].specialityId, groups[g].yearId, groups[g].name);
      assert false;
    }
  }

  /** Codes that follow keys are as unique as the keys. */
  lemma CodesUniqueWhenKeysUnique(groups: map<Id, Group>)
    requires CodesFollowKeys(groups) && GroupsUnique(groups)
    ensures CodesUnique(groups)
  {
    forall a, b | a in groups && b in groups && groups[a].code == groups[b].code
      ensures a == b
    {
      GroupCodeInjective(groups[a].specialityId, groups[a].yearId, groups[a].name,
                         groups[b].specialityId, groups[b].yearId, groups[b].name);
    }
  }

  /**
   * While codes follow keys, an update clashes with another group exactly
   * when that group already has the new key.
   */
  lemma UpdateClashIsKeyClash(groups: map<Id, Group>, id: Id, q: UpdateRequest)
    requires CodesFollowKeys(groups) && id in groups && UpdateValid(q)
    ensures ClashesWithOther(groups, id, ApplyUpdate(groups[id], q)) <==>
            exists o :: o in groups && o != id && groups[o].specialityId == groups[id].specialityId
              && groups[o].yearId == groups[id].yearId && groups[o].name == q.name.OrElse(groups[id].name)
  {
    var h := ApplyUpdate(groups[id], q);
    assert h.code == GroupCode(h.specialityId, h.yearId, h.name);
    if ClashesWithOther(groups, id, h) {
      var o :| o in groups && o != id &&
        ((groups[o].specialityId == h.specialityId && groups[o].yearId == h.yearId && groups[o].name == h.name)
         || groups[o].code == h.code);
      GroupCodeInjective(groups[o].specialityId, groups[o].yearId, groups[o].name, h.specialityId, h.yearId, h.name);
    }
  }

  /** The `index` filters: a key that is present but null matches no group. */
  datatype IndexFilters = IndexFilters(specialityId: Field<Id>, yearId: Field<Id>)

  predicate ColumnMatches(f: Field<Id>, column: Id)
  {
    f.Has() ==> f.Given? && f.value == column
  }

  /** The ids `index` lists, before ordering by name. */
  function IndexGroups(groups: map<Id, Group>, f: IndexFilters): (r: set<Id>)
    ensures r <= groups.Keys
    ensures forall g :: g in groups ==>
              (g in r <==> ColumnMatches(f.specialityId, groups[g].specialityId) && ColumnMatches(f.yearId, groups[g].yearId))
  {
    set g | g in groups && ColumnMatches(f.specialityId, groups[g].specialityId) && ColumnMatches(f.yearId, groups[g].yearId)
  }

  /** Inserting a row whose key and code are both free keeps both unique indexes and the code rule. */
  lemma InsertFreshGroup(groups: map<Id, Group>, id: Id, g: Group)
    requires id !in groups && !HasGroup(groups, g.specialityId, g.yearId, g.name) && !CodeTaken(groups, g.code)
    ensures GroupsUnique(groups) ==> GroupsUnique(groups[id := g])
    ensures CodesUnique(groups) ==> CodesUnique(groups[id := g])
    ensures CodesFollowKeys(groups) && g.code == GroupCode(g.specialityId, g.yearId, g.name) ==>
              CodesFollowKeys(groups[id := g])
  {
  }

  datatype StoreRequest = StoreRequest(
    specialityId: Field<Id>, yearId: Field<Id>, name: Field<string>, capacity: Field<int>, isActive: Field<bool>)

  predicate StoreValid(db: Database, q: StoreRequest)
    reads db
  {
    && RequiredExists(q.specialityId, db.specialities.Keys)
    && RequiredExists(q.yearId, db.years.Keys)
    && RequiredMax(q.name, 50)
    && NullableMin(q.capacity, 1)
  }

  function NewGroup(id: Id, q: StoreRequest): (g: Group)
    requires q.specialityId.Given? && q.yearId.Given? && q.name.Given?
    ensures g.code == GroupCode(q.specialityId.value, q.yearId.value, q.name.value)
    ensures g.capacity == q.capacity.AsOption() && g.isActive == q.isActive.OrElse(true)
  {
    Group(id, q.specialityId.value, q.yearId.value, q.name.value,
          GroupCode(q.specialityId.value, q.yearId.value, q.name.value), q.capacity.AsOption(),
          q.isActive.OrElse(true))
  }

  /**
   * `store`: validation, then 409 DUPLICATE_GROUP for a taken key, then the
   * insert, which the unique index on `code` rejects with a server error
   * when another group already has the derived code.
   */
  method Store(db: Database, q: StoreRequest) returns (r: Response, id: Id)
    modifies db`groups
    ensures !old(StoreValid(db, q)) ==> r == ValidationError && db.groups == old(db.groups)
    ensures old(StoreValid(db, q)) && HasGroup(old(db.groups), q.specialityId.value, q.yearId.value, q.name.value) ==>
              r == Failure(409, "DUPLICATE_GROUP") && db.groups == old(db.groups)
    ensures old(StoreValid(db, q)) && !HasGroup(old(db.groups), q.specialityId.value, q.yearId.value, q.name.value) ==>
              if CodeTaken(old(db.groups), GroupCode(q.specialityId.value, q.yearId.value, q.name.value))
              then r == ServerError && db.groups == old(db.groups)
              else r == Created && id !in old(db.groups) && db.groups == old(db.groups)[id := NewGroup(id, q)]
    ensures CodesFollowKeys(old(db.groups)) ==> r != ServerError && CodesFollowKeys(db.groups)
    ensures GroupsUnique(old(db.groups)) ==> GroupsUnique(db.groups)
    ensures CodesUnique(old(db.groups)) ==> CodesUnique(db.groups)
  {
    id := 1;
    if !StoreValid(db, q) {
      return ValidationError, id;
    }
    var s, y, name := q.specialityId.value, q.yearId.value, q.name.value;
    if HasGroup(db.groups, s, y, name) {
      return Failure(409, "DUPLICATE_GROUP"), id;
    }
    if CodesFollowKeys(db.groups) {
      FreeKeyHasFreeCode(db.groups, s, y, name);
    }
    if CodeTaken(db.groups, GroupCode(s, y, name)) {
      return ServerError, id;
    }
    id := NextId(db.groups.Keys);
    InsertFreshGroup(db.groups, id, NewGroup(id, q));
    db.groups := db.groups[id := NewGroup(id, q)];
    r := Created;
  }

  datatype UpdateRequest = UpdateRequest(name: Field<string>, capacity: Field<int>, isActive: Field<bool>)

  predicate UpdateValid(q: UpdateRequest)
  {
    SometimesMax(q.name, 50) && NullableMin(q.capacity, 1) && (q.isActive.Has() ==> q.isActive.Given?)
  }

  /** The group after `update`: a new name brings a code recomputed from the group's own key. */
  function ApplyUpdate(g: Group, q: UpdateRequest): (h: Group)
    requires UpdateValid(q)
    ensures h.id == g.id && h.specialityId == g.specialityId && h.yearId == g.yearId
    ensures h.name == q.name.OrElse(g.name)
    ensures q.name.Given? ==> h.code == GroupCode(g.specialityId, g.yearId, q.name.value)
    ensures !q.name.Has() ==> h.code == g.code
    ensures h.capacity == q.capacity.Overwrite(g.capacity) && h.isActive == q.isActive.OrElse(g.isActive)
    ensures h.capacity.Some? && q.capacity.Has() ==> h.capacity.value >= 1
  {
    g.(name := q.name.OrElse(g.name),
       code := if q.name.Given? then GroupCode(g.specialityId, g.yearId, q.name.value) else g.code,
       capacity := q.capacity.Overwrite(g.capacity),
       isActive := q.isActive.OrElse(g.isActive))
  }

  /** Another group than `id` already uses the key or the code the update would give `id`. */
  predicate ClashesWithOther(groups: map<Id, Group>, id: Id, h: Group)
  {
    exists o :: o in groups && o != id &&
      ((groups[o].specialityId == h.specialityId && groups[o].yearId == h.yearId && groups[o].name == h.name)
       || groups[o].code == h.code)
  }

  /** Rewriting group `id` without a clash keeps both unique indexes, and codes following keys when its code does. */
  lemma RewriteKeepsInvariants(groups: map<Id, Group>, id: Id, h: Group)
    requires id in groups && !ClashesWithOther(groups, id, h)
    ensures GroupsUnique(groups) ==> GroupsUnique(groups[id := h])
    ensures CodesUnique(groups) ==> CodesUnique(groups[id := h])
    ensures CodesFollowKeys(groups) && h.specialityId == groups[id].specialityId && h.yearId == groups[id].yearId
            && ((h.code == groups[id].code && h.name == groups[id].name) || h.code == GroupCode(h.specialityId, h.yearId, h.name))
            ==> CodesFollowKeys(groups[id := h])
  {
  }

  /**
   * `update`: only name, capacity and is_active are written (and code with a
   * new name); a write that would break a unique index is a server error.
   */
  method Update(db: Database, id: Id, q: UpdateRequest) returns (r: Response)
    modifies db`groups
    ensures id !in old(db.groups) ==> r == ModelNotFound && db.groups == old(db.groups)
    ensures id in old(db.groups) && !UpdateValid(q) ==> r == ValidationError && db.groups == old(db.groups)
    ensures id in old(db.groups) && UpdateValid(q) ==>
              var h := ApplyUpdate(old(db.groups[id]), q);
              if ClashesWithOther(old(db.groups), id, h) then r == ServerError && db.groups == old(db.groups)
              else r == Ok && db.groups == old(db.groups)[id := h]
    ensures CodesFollowKeys(old(db.groups)) ==> CodesFollowKeys(db.groups)
    ensures GroupsUnique(old(db.groups)) ==> GroupsUnique(db.groups)
    ensures CodesUnique(old(db.groups)) ==> CodesUnique(db.groups)
  {
    if id !in db.groups {
      return ModelNotFound;
    }
    if !UpdateValid(q) {
      return ValidationError;
    }
    var h := ApplyUpdate(db.groups[id], q);
    if ClashesWithOther(db.groups, id, h) {
      return ServerError;
    }
    RewriteKeepsInvariants(db.groups, id, h);
    db.groups := db.groups[id := h];
    return Ok;
  }

  /**
   * `destroy`: refused with 409 HAS_STUDENTS while a student is in the
   * group; otherwise the group goes, the foreign keys take its planning
   * items along and null the `group_id` of the other users in it.
   */
  method Destroy(db: Database, id: Id) returns (r: Response)
    modifies db`years, db`semesters, db`groups, db`plannings, db`planningItems, db`scheduleImages, db`users
    ensures id !in old(db.groups) ==> r == ModelNotFound && Snapshot(db) == old(Snapshot(db))
    ensures id in old(db.groups) && StudentsOfGroup(old(db.users), id) != {} ==>
              r == Failure(409, "HAS_STUDENTS") && Snapshot(db) == old(Snapshot(db))
    ensures id in old(db.groups) && StudentsOfGroup(old(db.users), id) == {} ==>
              r == Ok && Snapshot(db) == Delete(old(Snapshot(db)), {}, {}, {id})
    ensures Linked(old(Snapshot(db))) ==> Linked(Snapshot(db))
  {
    if id !in db.groups {
      return ModelNotFound;
    }
    if StudentsOfGroup(db.users, id) != {} {
      return Failure(409, "HAS_STUDENTS");
    }
    var t := Snapshot(db);
    if Linked(t) {
      DeleteKeepsLinked(t, {}, {}, {id});
    }
    WriteBack(db, Delete(t, {}, {}, {id}));
    return Ok;
  }

  /**
   * When the guard lets a deletion through, the group and the planning
   * items of the group go, and no student row is touched.
   */
  lemma DestroyTakesGroupItems(t: Structure, id: Id)
    requires StudentsOfGroup(t.users, id) == {}
    ensures var r := Delete(t, {}, {}, {id});
            && r.years == t.years && r.semesters == t.semesters && r.plannings == t.plannings
            && r.images == t.images && r.groups == t.groups - {id}
            && (forall i :: i in r.items <==> i in t.items && t.items[i].groupId != Some(id))
            && (forall u :: u in t.users && t.users[u].role == Student ==> r.users[u] == t.users[u])
  {
    assert GoneSemesters(t, {}, {}) == {};
    assert GoneGroups(t, {}, {id}) == {id};
    assert GonePlannings(t, {}) == {};
    assert GoneImages(t, {}) == {};
    WithoutNothing(t.years);
    WithoutNothing(t.semesters);
    WithoutNothing(t.plannings);
    WithoutNothing(t.images);
    WithoutOne(t.groups, id);
    GroupItemsGo(t, id);
    GroupSparesStudents(t, id);
  }

  lemma GroupItemsGo(t: Structure, id: Id)
    ensures forall i :: i in Delete(t, {}, {}, {id}).items <==> i in t.items && t.items[i].groupId != Some(id)
  {
    assert GoneGroups(t, {}, {id}) == {id};
    assert GonePlannings(t, GoneSemesters(t, {}, {})) == {};
  }

  lemma GroupSparesStudents(t: Structure, id: Id)
    requires StudentsOfGroup(t.users, id) == {}
    ensures forall u :: u in t.users && t.users[u].role == Student ==> Delete(t, {}, {}, {id}).users[u] == t.users[u]
  {
    assert GoneGroups(t, {}, {id}) == {id};
    forall u | u in t.users && t.users[u].role == Student
      ensures Delete(t, {}, {}, {id}).users[u] == t.users[u]
    {
      assert u !in StudentsOfGroup(t.users, id);
    }
  }
}
