/**
 * The administrator's planning items: the rows of a weekly timetable, with
 * their validation rules (day 1 to 7, "HH:MM" times with the end after the
 * start, a known course type), their defaults and the fields an edit may
 * change.
 */
module AdminPlanningItems {
  import opened Wrappers
  import opened Php
  import opened Records
  import opened Http
  import opened Validation
  import opened PlanningItemModel

  // Times

  function TwoDigits(a: char, b: char): nat
    requires IsDigit(a) && IsDigit(b)
  {
    DigitValue(a) * 10 + DigitValue(b)
  }

  /**
   * `date_format:H:i`: exactly two hour digits (00 to 23), a colon and two
   * minute digits (00 to 59), read as minutes after midnight.
   */
  function ParseTime(s: string): (r: Option<nat>)
    ensures r.Some? ==> r.value < 24 * 60 && |s| == 5 && s[2] == ':'
  {
    if |s| == 5 && IsDigit(s[0]) && IsDigit(s[1]) && s[2] == ':' && IsDigit(s[3]) && IsDigit(s[4])
       && TwoDigits(s[0], s[1]) <= 23 && TwoDigits(s[3], s[4]) <= 59
    then Some(TwoDigits(s[0], s[1]) * 60 + TwoDigits(s[3], s[4]))
    else None
  }

  /** The "HH:MM" text of a time of day. */
  function FormatTime(t: nat): (s: string)
    requires t < 24 * 60
    ensures |s| == 5
  {
    var h := t / 60;
    var m := t % 60;
    [DigitChar(h / 10), DigitChar(h % 10), ':', DigitChar(m / 10), DigitChar(m % 10)]
  }

  lemma DigitCharOfValue(c: char)
    requires IsDigit(c)
    ensures DigitChar(DigitValue(c)) == c
  {
  }

  /** Every time of day has a text the rule accepts, and it reads back as that time. */
  lemma ParseFormatTime(t: nat)
    requires t < 24 * 60
    ensures ParseTime(FormatTime(t)) == Some(t)
  {
    var s := FormatTime(t);
    assert TwoDigits(s[0], s[1]) == t / 60;
    assert TwoDigits(s[3], s[4]) == t % 60;
  }

  /** A text the rule accepts is the text of the time it reads as: there is one spelling per time. */
  lemma FormatParseTime(s: string)
    requires ParseTime(s).Some?
    ensures FormatTime(ParseTime(s).value) == s
  {
    var h := TwoDigits(s[0], s[1]);
    var m := TwoDigits(s[3], s[4]);
    var t := ParseTime(s).value;
    assert t / 60 == h && t % 60 == m;
    DigitCharOfValue(s[0]);
    DigitCharOfValue(s[1]);
    DigitCharOfValue(s[3]);
    DigitCharOfValue(s[4]);
    var f := FormatTime(t);
    assert f[0] == s[0] && f[1] == s[1] && f[2] == s[2] && f[3] == s[3] && f[4] == s[4];
  }

  /** `after:start_time` with both times given: the end is strictly later. */
  predicate EndAfter(start: string, end: string)
  {
    ParseTime(start).Some? && ParseTime(end).Some? && ParseTime(start).value < ParseTime(end).value
  }

  // Requests

  datatype ItemRequest = ItemRequest(
    moduleId: Field<Id>, groupId: Field<Id>, dayOfWeek: Field<int>, startTime: Field<string>, endTime: Field<string>,
    room: Field<string>, teacherName: Field<string>, teacherEmail: Field<string>, courseType: Field<string>,
    order: Field<int>)

  /**
   * The nullable fields, the same on create and edit: an existing group,
   * a room of at most 100 characters, a teacher name of at most 255, and a
   * teacher e-mail of at most 255 that the `email` rule accepts.
   */
  predicate OptionalFieldsValid(q: ItemRequest, groups: map<Id, Group>, isEmail: string -> bool)
  {
    (q.groupId.Given? ==> q.groupId.value in groups)
    && (q.room.Given? ==> |q.room.value| <= 100)
    && (q.teacherName.Given? ==> |q.teacherName.value| <= 255)
    && (q.teacherEmail.Given? ==> isEmail(q.teacherEmail.value) && |q.teacherEmail.value| <= 255)
  }

  predicate ValidDay(d: int)
  {
    1 <= d <= 7
  }

  /** The rules of `store`: module, day, both times, the end after the start and the course type are required. */
  predicate StoreValid(q: ItemRequest, modules: map<Id, Module>, groups: map<Id, Group>, isEmail: string -> bool)
  {
    q.moduleId.Given? && q.moduleId.value in modules
    && q.dayOfWeek.Given? && ValidDay(q.dayOfWeek.value)
    && q.startTime.Given? && ParseTime(q.startTime.value).Some?
    && q.endTime.Given? && EndAfter(q.startTime.value, q.endTime.value)
    && q.courseType.Given? && q.courseType.value in CourseTypes
    && OptionalFieldsValid(q, groups, isEmail)
  }

  /** A stored item that keeps the table's rules: a valid day and type, and the end after the start. */
  predicate WellFormed(i: PlanningItem)
  {
    ValidDay(i.dayOfWeek) && i.startTime < i.endTime && i.courseType in CourseTypes
  }

  /** The item `store` creates: the planning from the route, the order 0 unless given. */
  function NewItem(id: Id, planningId: Id, q: ItemRequest, modules: map<Id, Module>, groups: map<Id, Group>,
                   isEmail: string -> bool): (i: PlanningItem)
    requires StoreValid(q, modules, groups, isEmail)
    ensures i.id == id && i.planningId == planningId && i.moduleId == q.moduleId.value
    ensures i.groupId == q.groupId.AsOption() && i.dayOfWeek == q.dayOfWeek.value
    ensures Some(i.startTime) == ParseTime(q.startTime.value) && Some(i.endTime) == ParseTime(q.endTime.value)
    ensures i.room == q.room.AsOption() && i.teacherName == q.teacherName.AsOption()
    ensures i.teacherEmail == q.teacherEmail.AsOption() && i.courseType == q.courseType.value
    ensures i.order == q.order.OrElse(0)
    ensures WellFormed(i)
  {
    PlanningItem(id, planningId, q.moduleId.value, q.groupId.AsOption(), q.dayOfWeek.value,
                 ParseTime(q.startTime.value).value, ParseTime(q.endTime.value).value,
                 q.room.AsOption(), q.teacherName.AsOption(), q.teacherEmail.AsOption(), q.courseType.value,
                 q.order.OrElse(0))
  }

  /** `store`: the route's planning must exist; then validate and create. */
  method Store(db: Database, planningId: Id, q: ItemRequest, isEmail: string -> bool) returns (r: Response, id: Id)
    modifies db`planningItems
    ensures planningId !in old(db.plannings) ==> r == ModelNotFound && db.planningItems == old(db.planningItems)
    ensures planningId in old(db.plannings) && !StoreValid(q, old(db.modules), old(db.groups), isEmail) ==>
              r == ValidationError && db.planningItems == old(db.planningItems)
    ensures planningId in old(db.plannings) && StoreValid(q, old(db.modules), old(db.groups), isEmail) ==>
              r == Created && id !in old(db.planningItems)
              && db.planningItems == old(db.planningItems)[id := NewItem(id, planningId, q, old(db.modules), old(db.groups), isEmail)]
  {
    id := 1;
    if planningId !in db.plannings {
      return ModelNotFound, id;
    }
    if !StoreValid(q, db.modules, db.groups, isEmail) {
      return ValidationError, id;
    }
    id := NextId(db.planningItems.Keys);
    db.planningItems := db.planningItems[id := NewItem(id, planningId, q, db.modules, db.groups, isEmail)];
    r := Created;
  }

  // Edit

  /**
   * The rules of `update`: each field sent is checked like on create, but
   * `after:start_time` only compares with a `start_time` sent in the same
   * request (the framework lets it pass when there is none).
   */
  predicate UpdateValid(q: ItemRequest, modules: map<Id, Module>, groups: map<Id, Group>, isEmail: string -> bool)
  {
    (q.moduleId.Has() ==> q.moduleId.Given? && q.moduleId.value in modules)
    && (q.dayOfWeek.Has() ==> q.dayOfWeek.Given? && ValidDay(q.dayOfWeek.value))
    && (q.startTime.Has() ==> q.startTime.Given? && ParseTime(q.startTime.value).Some?)
    && (q.endTime.Has() ==> q.endTime.Given? && ParseTime(q.endTime.value).Some?
                            && (q.startTime.Given? ==> EndAfter(q.startTime.value, q.endTime.value)))
    && (q.courseType.Has() ==> q.courseType.Given? && q.courseType.value in CourseTypes)
    && OptionalFieldsValid(q, groups, isEmail)
  }

  /** The start and end times an edit leaves: the ones sent, else the stored ones. */
  function NewStart(x: PlanningItem, q: ItemRequest): nat
  {
    if q.startTime.Given? && ParseTime(q.startTime.value).Some? then ParseTime(q.startTime.value).value else x.startTime
  }

  function NewEnd(x: PlanningItem, q: ItemRequest): nat
  {
    if q.endTime.Given? && ParseTime(q.endTime.value).Some? then ParseTime(q.endTime.value).value else x.endTime
  }

  /**
   * The item after an edit: every whitelisted field sent is written, the
   * rest are kept, and the planning never changes.
   */
  function ApplyUpdate(x: PlanningItem, q: ItemRequest): (y: PlanningItem)
    ensures y.id == x.id && y.planningId == x.planningId
    ensures y.moduleId == q.moduleId.OrElse(x.moduleId) && y.groupId == q.groupId.Overwrite(x.groupId)
    ensures y.dayOfWeek == q.dayOfWeek.OrElse(x.dayOfWeek)
    ensures y.startTime == NewStart(x, q) && y.endTime == NewEnd(x, q)
    ensures y.room == q.room.Overwrite(x.room) && y.teacherName == q.teacherName.Overwrite(x.teacherName)
    ensures y.teacherEmail == q.teacherEmail.Overwrite(x.teacherEmail)
    ensures y.courseType == q.courseType.OrElse(x.courseType) && y.order == q.order.OrElse(x.order)
  {
    x.(moduleId := q.moduleId.OrElse(x.moduleId), groupId := q.groupId.Overwrite(x.groupId),
       dayOfWeek := q.dayOfWeek.OrElse(x.dayOfWeek), startTime := NewStart(x, q), endTime := NewEnd(x, q),
       room := q.room.Overwrite(x.room), teacherName := q.teacherName.Overwrite(x.teacherName),
       teacherEmail := q.teacherEmail.Overwrite(x.teacherEmail), courseType := q.courseType.OrElse(x.courseType),
       order := q.order.OrElse(x.order))
  }

  /**
   * Sending only a `start_time` later than the stored end passes validation
   * and leaves the item ending before it starts.
   */
  lemma StartOnlyEditInvertsTimes(x: PlanningItem, modules: map<Id, Module>, groups: map<Id, Group>,
                                  isEmail: string -> bool)
    requires WellFormed(x) && x.startTime == 600 && x.endTime == 660
    ensures var q := ItemRequest(Absent, Absent, Absent, Given("12:00"), Absent, Absent, Absent, Absent, Absent, Absent);
            UpdateValid(q, modules, groups, isEmail) && !WellFormed(ApplyUpdate(x, q))
  {
    var q := ItemRequest(Absent, Absent, Absent, Given("12:00"), Absent, Absent, Absent, Absent, Absent, Absent);
    assert ParseTime("12:00") == Some(720) by {
      assert TwoDigits('1', '2') == 12 && TwoDigits('0', '0') == 0;
    }
  }

  /** An edit that passes the rules keeps an item well formed exactly when the times it leaves are in order. */
  lemma UpdateKeepsWellFormed(x: PlanningItem, q: ItemRequest, modules: map<Id, Module>, groups: map<Id, Group>,
                              isEmail: string -> bool)
    requires WellFormed(x) && UpdateValid(q, modules, groups, isEmail)
    ensures WellFormed(ApplyUpdate(x, q)) <==> NewStart(x, q) < NewEnd(x, q)
  {
  }

  /**
   * `update`: find, validate, write the whitelisted fields. An `order` sent
   * as null is written to a NOT NULL column, which the database refuses.
   */
  method Update(db: Database, id: Id, q: ItemRequest, isEmail: string -> bool) returns (r: Response)
    modifies db`planningItems
    ensures id !in old(db.planningItems) ==> r == ModelNotFound && db.planningItems == old(db.planningItems)
    ensures id in old(db.planningItems) && !UpdateValid(q, old(db.modules), old(db.groups), isEmail) ==>
              r == ValidationError && db.planningItems == old(db.planningItems)
    ensures id in old(db.planningItems) && UpdateValid(q, old(db.modules), old(db.groups), isEmail)
            && q.order.Null? ==>
              r == ServerError && db.planningItems == old(db.planningItems)
    ensures id in old(db.planningItems) && UpdateValid(q, old(db.modules), old(db.groups), isEmail)
            && !q.order.Null? ==>
              r == Ok && db.planningItems == old(db.planningItems)[id := ApplyUpdate(old(db.planningItems[id]), q)]
  {
    if id !in db.planningItems {
      return ModelNotFound;
    }
    if !UpdateValid(q, db.modules, db.groups, isEmail) {
      return ValidationError;
    }
    if q.order.Null? {
      return ServerError;
    }
    db.planningItems := db.planningItems[id := ApplyUpdate(db.planningItems[id], q)];
    r := Ok;
  }

  // Index and delete

  /** `index`: 404 for a missing planning, else its items by day and start time. */
  function Index(plannings: map<Id, Planning>, rows: seq<PlanningItem>, planningId: Id): (r: Option<seq<PlanningItem>>)
    ensures r.None? <==> planningId !in plannings
    ensures r.Some? ==> r.value == OrderedItems(rows, planningId)
  {
    if planningId !in plannings then None else Some(OrderedItems(rows, planningId))
  }

  /** `destroy`: the item is deleted. */
  method Destroy(db: Database, id: Id) returns (r: Response)
    modifies db`planningItems
    ensures id !in old(db.planningItems) ==> r == ModelNotFound && db.planningItems == old(db.planningItems)
    ensures id in old(db.planningItems) ==> r == Ok && db.planningItems == old(db.planningItems) - {id}
  {
    if id !in db.planningItems {
      return ModelNotFound;
    }
    db.planningItems := db.planningItems - {id};
    r := Ok;
  }
}
