/**
 * The student timetable lookup: speciality, then a year of that speciality,
 * then a semester of that year, then the semester's published planning and
 * its items, with the semester's active scanned image beside them.
 */
module StudentSchedule {
  import opened Wrappers
  import opened Records
  import opened Http
  import opened PlanningItemModel

  /** The answer without a full selection, or the schedule of the selected semester. */
  datatype ScheduleView =
    | Choices(specialities: set<Id>)
    | Schedule(semester: Semester, planning: Option<Planning>, items: seq<PlanningItem>, image: Option<ScheduleImage>)

  predicate HasPublished(plannings: map<Id, Planning>, semesterId: Id)
  {
    exists k :: k in plannings && plannings[k].semesterId == semesterId && plannings[k].isPublished
  }

  predicate HasActiveImage(images: map<Id, ScheduleImage>, semesterId: Id)
  {
    exists k :: k in images && images[k].semesterId == semesterId && images[k].isActive
  }

  /** The active specialities offered for choosing. */
  function ActiveSpecialities(specialities: map<Id, Speciality>): (r: set<Id>)
    ensures forall k :: k in r <==> k in specialities && specialities[k].isActive
  {
    set k | k in specialities && specialities[k].isActive
  }

  /** The year belongs to the speciality, and the semester to the year. */
  predicate Belongs(db: Database, specialityId: Id, yearId: Id, semesterId: Id)
    reads db
  {
    yearId in db.years && db.years[yearId].specialityId == specialityId
    && semesterId in db.semesters && db.semesters[semesterId].yearId == yearId
  }

  /**
   * `index`. An identifier that is missing or falsy is `None`: then the
   * answer lists the active specialities and nothing else. A year outside
   * the speciality or a semester outside the year is not found. Otherwise
   * the answer holds the semester, its published planning (if any) with its
   * items by day and start time (none without one), and its active image.
   * `rows` is the `planning_items` table.
   */
  method Index(db: Database, specialityId: Option<Id>, yearId: Option<Id>, semesterId: Option<Id>,
               rows: seq<PlanningItem>) returns (r: Response, view: Option<ScheduleView>)
    ensures specialityId.None? || yearId.None? || semesterId.None? ==>
              r == Ok && view == Some(Choices(ActiveSpecialities(db.specialities)))
    ensures specialityId.Some? && yearId.Some? && semesterId.Some?
            && !Belongs(db, specialityId.value, yearId.value, semesterId.value) ==>
              r == ModelNotFound && view.None?
    ensures specialityId.Some? && yearId.Some? && semesterId.Some?
            && Belongs(db, specialityId.value, yearId.value, semesterId.value) ==>
              r == Ok && view.Some? && view.value.Schedule?
              && view.value.semester == db.semesters[semesterId.value]
              && (view.value.planning.None? <==> !HasPublished(db.plannings, semesterId.value))
              && (view.value.planning.Some? ==>
                    view.value.planning.value in db.plannings.Values
                    && view.value.planning.value.semesterId == semesterId.value
                    && view.value.planning.value.isPublished
                    && view.value.items == OrderedItems(rows, view.value.planning.value.id))
              && (view.value.planning.None? ==> view.value.items == [])
              && (view.value.image.None? <==> !HasActiveImage(db.scheduleImages, semesterId.value))
              && (view.value.image.Some? ==>
                    view.value.image.value in db.scheduleImages.Values
                    && view.value.image.value.semesterId == semesterId.value && view.value.image.value.isActive)
  {
    if specialityId.None? || yearId.None? || semesterId.None? {
      return Ok, Some(Choices(ActiveSpecialities(db.specialities)));
    }
    if !Belongs(db, specialityId.value, yearId.value, semesterId.value) {
      return ModelNotFound, None;
    }
    var sid := semesterId.value;
    var planning: Option<Planning> := None;
    var items: seq<PlanningItem> := [];
    if HasPublished(db.plannings, sid) {
      var k :| k in db.plannings && db.plannings[k].semesterId == sid && db.plannings[k].isPublished;
      planning := Some(db.plannings[k]);
      items := OrderedItems(rows, db.plannings[k].id);
    }
    var image: Option<ScheduleImage> := None;
    if HasActiveImage(db.scheduleImages, sid) {
      var k :| k in db.scheduleImages && db.scheduleImages[k].semesterId == sid && db.scheduleImages[k].isActive;
      image := Some(db.scheduleImages[k]);
    }
    r := Ok;
    view := Some(Schedule(db.semesters[sid], planning, items, image));
  }

  /**
   * The items shown are exactly the published planning's items, whatever
   * their group: nothing is filtered by the student's group.
   */
  lemma ScheduleIgnoresGroups(rows: seq<PlanningItem>, p: Planning, x: PlanningItem)
    requires x in rows && x.planningId == p.id
    ensures x in OrderedItems(rows, p.id)
  {
    OrderedItemsAreTimetable(rows, p.id);
    assert multiset(rows)[x] > 0;
    assert multiset(OrderedItems(rows, p.id))[x] > 0;
  }
}
