/**
 * The administrator's registry of semesters. Dates arrive as strings and are
 * read by `parse`, which stands for the framework's date parser (a day
 * number, or nothing for an unreadable date).
 */
module AdminSemesters {
  import opened Wrappers
  import opened Records
  import opened Http
  import opened Validation
  import opened Cascades

  datatype StoreRequest = StoreRequest(
    yearId: Field<Id>, semesterNumber: Field<int>, name: Field<Text>, startDate: Field<string>,
    endDate: Field<string>, academicYear: Field<string>, isActive: Field<bool>)

  /** The `date` rule. */
  predicate IsDate(f: Field<string>, parse: string -> Option<int>)
  {
    f.Given? && parse(f.value).Some?
  }

  /** `after:start_date`: both dates read and the end is strictly later. */
  predicate EndsAfter(start: Field<string>, end: Field<string>, parse: string -> Option<int>)
  {
    IsDate(start, parse) && IsDate(end, parse) && parse(end.value).value > parse(start.value).value
  }

  predicate StoreValid(db: Database, q: StoreRequest, parse: string -> Option<int>)
    reads db
  {
    && RequiredExists(q.yearId, db.years.Keys)
    && q.semesterNumber.Given? && q.semesterNumber.value in {1, 2}
    && NameWithFrench(q.name)
    && IsDate(q.startDate, parse)
    && EndsAfter(q.startDate, q.endDate, parse)
    && RequiredString(q.academicYear)
  }

  /** The row `store` creates: is_active defaults to true and the end follows the start. */
  function NewSemester(id: Id, q: StoreRequest, parse: string -> Option<int>): (s: Semester)
    requires q.yearId.Given? && q.semesterNumber.Given? && q.name.Given? && q.academicYear.Given?
    requires EndsAfter(q.startDate, q.endDate, parse)
    ensures s.id == id && s.yearId == q.yearId.value && s.semesterNumber == q.semesterNumber.value
    ensures s.startDate < s.endDate
    ensures s.isActive == (q.isActive.Given? ==> q.isActive.value)
  {
    Semester(id, q.yearId.value, q.semesterNumber.value, q.name.value, parse(q.startDate.value).value,
             parse(q.endDate.value).value, q.academicYear.value, q.isActive.OrElse(true))
  }

  /** `store`: validation, then 409 DUPLICATE_SEMESTER for a taken (year, number) pair. */
  method Store(db: Database, q: StoreRequest, parse: string -> Option<int>) returns (r: Response, id: Id)
    modifies db`semesters
    ensures !old(StoreValid(db, q, parse)) ==> r == ValidationError && db.semesters == old(db.semesters)
    ensures old(StoreValid(db, q, parse)) && HasSemester(old(db.semesters), q.yearId.value, q.semesterNumber.value) ==>
              r == Failure(409, "DUPLICATE_SEMESTER") && db.semesters == old(db.semesters)
    ensures old(StoreValid(db, q, parse)) && !HasSemester(old(db.semesters), q.yearId.value, q.semesterNumber.value) ==>
              r == Created && id !in old(db.semesters) && db.semesters == old(db.semesters)[id := NewSemester(id, q, parse)]
    ensures SemestersUnique(old(db.semesters)) ==> SemestersUnique(db.semesters)
  {
    id := 1;
    if !StoreValid(db, q, parse) {
      return ValidationError, id;
    }
    if HasSemester(db.semesters, q.yearId.value, q.semesterNumber.value) {
      return Failure(409, "DUPLICATE_SEMESTER"), id;
    }
    id := NextId(db.semesters.Keys);
    db.semesters := db.semesters[id := NewSemester(id, q, parse)];
    r := Created;
  }

  datatype UpdateRequest = UpdateRequest(
    name: Field<Text>, startDate: Field<string>, endDate: Field<string>, academicYear: Field<string>,
    isActive: Field<bool>)

  /**
   * The update rules. `after:start_date` is checked against a start date sent
   * in the same request; without one it is taken to pass.
   */
  predicate UpdateValid(q: UpdateRequest, parse: string -> Option<int>)
  {
    && (q.name.Has() ==> q.name.Given?)
    && (q.name.Given? && q.name.value != map[] ==> NameWithFrench(q.name))
    && (q.startDate.Has() ==> IsDate(q.startDate, parse))
    && (q.endDate.Has() ==> IsDate(q.endDate, parse))
    && (q.endDate.Has() && q.startDate.Has() ==> EndsAfter(q.startDate, q.endDate, parse))
    && (q.academicYear.Has() ==> q.academicYear.Given?)
    && (q.isActive.Has() ==> q.isActive.Given?)
  }

  /** The semester after `update`: the year and the semester number are never touched. */
  function ApplyUpdate(s: Semester, q: UpdateRequest, parse: string -> Option<int>): (t: Semester)
    requires UpdateValid(q, parse)
    ensures t.id == s.id && t.yearId == s.yearId && t.semesterNumber == s.semesterNumber
    ensures t.name == q.name.OrElse(s.name) && t.academicYear == q.academicYear.OrElse(s.academicYear)
    ensures t.isActive == q.isActive.OrElse(s.isActive)
    ensures t.startDate == (if q.startDate.Given? then parse(q.startDate.value).value else s.startDate)
    ensures t.endDate == (if q.endDate.Given? then parse(q.endDate.value).value else s.endDate)
  {
    s.(name := q.name.OrElse(s.name),
       academicYear := q.academicYear.OrElse(s.academicYear),
       isActive := q.isActive.OrElse(s.isActive),
       startDate := if q.startDate.Given? then parse(q.startDate.value).value else s.startDate,
       endDate := if q.endDate.Given? then parse(q.endDate.value).value else s.endDate)
  }

  /** Moving only the start date can put it after the stored end date. */
  lemma UpdateCanInvertDates()
    ensures var s := Semester(1, 1, 1, map[], 10, 20, "2024-2025", true);
            var parse := (d: string) => if d == "late" then Some(30) else None;
            var q := UpdateRequest(Absent, Given("late"), Absent, Absent, Absent);
            UpdateValid(q, parse) && ApplyUpdate(s, q, parse).startDate > ApplyUpdate(s, q, parse).endDate
  {
  }

  method Update(db: Database, id: Id, q: UpdateRequest, parse: string -> Option<int>) returns (r: Response)
    modifies db`semesters
    ensures id !in old(db.semesters) ==> r == ModelNotFound && db.semesters == old(db.semesters)
    ensures id in old(db.semesters) && !UpdateValid(q, parse) ==> r == ValidationError && db.semesters == old(db.semesters)
    ensures id in old(db.semesters) && UpdateValid(q, parse) ==>
              r == Ok && db.semesters == old(db.semesters)[id := ApplyUpdate(old(db.semesters[id]), q, parse)]
    ensures SemestersUnique(old(db.semesters)) ==> SemestersUnique(db.semesters)
  {
    if id !in db.semesters {
      return ModelNotFound;
    }
    if !UpdateValid(q, parse) {
      return ValidationError;
    }
    db.semesters := db.semesters[id := ApplyUpdate(db.semesters[id], q, parse)];
    return Ok;
  }

  predicate HasPlanning(plannings: map<Id, Planning>, semester: Id)
  {
    exists p :: p in plannings && plannings[p].semesterId == semester
  }

  /**
   * `destroy`: refused with 409 HAS_PLANNING while the semester has a
   * planning; otherwise the semester goes and the foreign keys take its
   * schedule images along.
   */
  method Destroy(db: Database, id: Id) returns (r: Response)
    modifies db`years, db`semesters, db`groups, db`plannings, db`planningItems, db`scheduleImages, db`users
    ensures id !in old(db.semesters) ==> r == ModelNotFound && Snapshot(db) == old(Snapshot(db))
    ensures id in old(db.semesters) && HasPlanning(old(db.plannings), id) ==>
              r == Failure(409, "HAS_PLANNING") && Snapshot(db) == old(Snapshot(db))
    ensures id in old(db.semesters) && !HasPlanning(old(db.plannings), id) ==>
              r == Ok && Snapshot(db) == Delete(old(Snapshot(db)), {}, {id}, {})
    ensures Linked(old(Snapshot(db))) ==> Linked(Snapshot(db))
  {
    if id !in db.semesters {
      return ModelNotFound;
    }
    if HasPlanning(db.plannings, id) {
      return Failure(409, "HAS_PLANNING");
    }
    var t := Snapshot(db);
    if Linked(t) {
      DeleteKeepsLinked(t, {}, {id}, {});
    }
    WriteBack(db, Delete(t, {}, {id}, {}));
    return Ok;
  }

  /**
   * When the guard lets a deletion through, only the semester and its
   * schedule images go; no planning or planning item is touched.
   */
  lemma DestroyTakesOnlyImages(t: Structure, id: Id)
    requires !HasPlanning(t.plannings, id)
    ensures var r := Delete(t, {}, {id}, {});
            && r.years == t.years && r.groups == t.groups && r.plannings == t.plannings
            && r.items == t.items && r.users == t.users
            && r.semesters == t.semesters - {id}
            && (forall m :: m in r.images <==> m in t.images && t.images[m].semesterId != id)
  {
    assert GoneSemesters(t, {}, {id}) == {id};
    assert GoneGroups(t, {}, {}) == {};
    assert GonePlannings(t, {id}) == {};
    assert GoneItems(t, {}, {}) == {};
    WithoutNothing(t.years);
    WithoutNothing(t.groups);
    WithoutNothing(t.plannings);
    WithoutNothing(t.items);
    NullOutNothing(t.users);
    WithoutOne(t.semesters, id);
  }
}
