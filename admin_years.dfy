/** The administrator's registry of academic years. */
module AdminYears {
  import opened Wrappers
  import opened Php
  import opened Records
  import opened Http
  import opened Validation
  import opened Cascades

  datatype StoreRequest = StoreRequest(
    specialityId: Field<Id>, yearNumber: Field<int>, name: Field<Text>, description: Field<Text>,
    order: Field<int>, isActive: Field<bool>)

  predicate StoreValid(db: Database, q: StoreRequest)
    reads db
  {
    && RequiredExists(q.specialityId, db.specialities.Keys)
    && q.yearNumber.Given? && 1 <= q.yearNumber.value <= 5
    && NameWithFrench(q.name)
  }

  /** The row `store` creates: order defaults to the year number, is_active to true. */
  function NewYear(id: Id, q: StoreRequest): (y: Year)
    requires q.specialityId.Given? && q.yearNumber.Given? && q.name.Given?
    ensures y.id == id && y.specialityId == q.specialityId.value && y.yearNumber == q.yearNumber.value
    ensures y.name == q.name.value
    ensures y.order == (if q.order.Given? then q.order.value else q.yearNumber.value)
    ensures y.isActive == (q.isActive.Given? ==> q.isActive.value)
    ensures y.description.Some? <==> q.description.Given?
  {
    Year(id, q.specialityId.value, q.yearNumber.value, q.name.value,
         q.description.AsOption(),
         q.order.OrElse(q.yearNumber.value), q.isActive.OrElse(true))
  }

  /**
   * `store`: validation, then 409 DUPLICATE_YEAR when the speciality already
   * has that year number, otherwise one new row.
   */
  method Store(db: Database, q: StoreRequest) returns (r: Response, id: Id)
    modifies db`years
    ensures !old(StoreValid(db, q)) ==> r == ValidationError && db.years == old(db.years)
    ensures old(StoreValid(db, q)) && HasYear(old(db.years), q.specialityId.value, q.yearNumber.value) ==>
              r == Failure(409, "DUPLICATE_YEAR") && db.years == old(db.years)
    ensures old(StoreValid(db, q)) && !HasYear(old(db.years), q.specialityId.value, q.yearNumber.value) ==>
              r == Created && id !in old(db.years) && db.years == old(db.years)[id := NewYear(id, q)]
    ensures YearsUnique(old(db.years)) ==> YearsUnique(db.years)
  {
    id := 1;
    if !StoreValid(db, q) {
      return ValidationError, id;
    }
    if HasYear(db.years, q.specialityId.value, q.yearNumber.value) {
      return Failure(409, "DUPLICATE_YEAR"), id;
    }
    id := NextId(db.years.Keys);
    db.years := db.years[id := NewYear(id, q)];
    r := Created;
  }

  datatype UpdateRequest = UpdateRequest(name: Field<Text>, description: Field<Text>, order: Field<int>, isActive: Field<bool>)

  predicate UpdateValid(q: UpdateRequest)
  {
    && (q.name.Has() ==> q.name.Given?)
    && (q.name.Given? && q.name.value != map[] ==> NameWithFrench(q.name))
    && (q.isActive.Has() ==> q.isActive.Given?)
  }

  /** The year after `$request->only(['name', 'description', 'order', 'is_active'])`. */
  function ApplyUpdate(y: Year, q: UpdateRequest): (z: Year)
    requires UpdateValid(q) && !q.order.Null?
    ensures z.id == y.id && z.specialityId == y.specialityId && z.yearNumber == y.yearNumber
    ensures z.name == q.name.OrElse(y.name) && z.order == q.order.OrElse(y.order)
    ensures z.isActive == q.isActive.OrElse(y.isActive)
    ensures z.description == q.description.Overwrite(y.description)
  {
    y.(name := q.name.OrElse(y.name),
       description := q.description.Overwrite(y.description),
       order := q.order.OrElse(y.order),
       isActive := q.isActive.OrElse(y.isActive))
  }

  /**
   * `update`: only name, description, order and is_active change. A null
   * order passes validation but violates the NOT NULL column.
   */
  method Update(db: Database, id: Id, q: UpdateRequest) returns (r: Response)
    modifies db`years
    ensures id !in old(db.years) ==> r == ModelNotFound && db.years == old(db.years)
    ensures id in old(db.years) && !UpdateValid(q) ==> r == ValidationError && db.years == old(db.years)
    ensures id in old(db.years) && UpdateValid(q) && q.order.Null? ==> r == ServerError && db.years == old(db.years)
    ensures id in old(db.years) && UpdateValid(q) && !q.order.Null? ==>
              r == Ok && db.years == old(db.years)[id := ApplyUpdate(old(db.years[id]), q)]
    ensures YearsUnique(old(db.years)) ==> YearsUnique(db.years)
  {
    if id !in db.years {
      return ModelNotFound;
    }
    if !UpdateValid(q) {
      return ValidationError;
    }
    if q.order.Null? {
      return ServerError;
    }
    db.years := db.years[id := ApplyUpdate(db.years[id], q)];
    return Ok;
  }

  /**
   * `destroy`: refused with 409 HAS_STUDENTS while a student belongs to the
   * year; otherwise the year goes, and the foreign keys take its semesters,
   * groups, their plannings, items and schedule images along and null the
   * users' references to it and its groups.
   */
  method Destroy(db: Database, id: Id) returns (r: Response)
    modifies db`years, db`semesters, db`groups, db`plannings, db`planningItems, db`scheduleImages, db`users
    ensures id !in old(db.years) ==> r == ModelNotFound && Snapshot(db) == old(Snapshot(db))
    ensures id in old(db.years) && StudentsOfYear(old(db.users), id) != {} ==>
              r == Failure(409, "HAS_STUDENTS") && Snapshot(db) == old(Snapshot(db))
    ensures id in old(db.years) && StudentsOfYear(old(db.users), id) == {} ==>
              r == Ok && Snapshot(db) == Delete(old(Snapshot(db)), {id}, {}, {})
    ensures Linked(old(Snapshot(db))) ==> Linked(Snapshot(db))
  {
    if id !in db.years {
      return ModelNotFound;
    }
    if StudentsOfYear(db.users, id) != {} {
      return Failure(409, "HAS_STUDENTS");
    }
    var t := Snapshot(db);
    if Linked(t) {
      DeleteKeepsLinked(t, {id}, {}, {});
    }
    WriteBack(db, Delete(t, {id}, {}, {}));
    return Ok;
  }

  /** When the guard lets a deletion through, no student's year changes. */
  lemma DestroySparesStudentYears(t: Structure, id: Id)
    requires StudentsOfYear(t.users, id) == {}
    ensures forall u :: u in t.users && t.users[u].role == Student ==>
              Delete(t, {id}, {}, {}).users[u].yearId == t.users[u].yearId
  {
    forall u | u in t.users && t.users[u].role == Student
      ensures Delete(t, {id}, {}, {}).users[u].yearId == t.users[u].yearId
    {
      assert u !in StudentsOfYear(t.users, id);
    }
  }
}
