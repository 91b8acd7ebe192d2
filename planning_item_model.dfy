/**
 * The planning item model: its day and course-type labels, the course types
 * the table allows, and the items of one planning in timetable order.
 */
module PlanningItemModel {
  import opened Sorting
  import opened Records

  // Labels

  const DayNames: seq<string> := ["Lundi", "Mardi", "Mercredi", "Jeudi", "Vendredi", "Samedi", "Dimanche"]

  /** `day_name`: Lundi for 1 through Dimanche for 7, and "Unknown" for any other day. */
  function DayName(day: int): (r: string)
    ensures 1 <= day <= 7 ==> r == DayNames[day - 1]
    ensures !(1 <= day <= 7) ==> r == "Unknown"
  {
    if 1 <= day <= 7 then DayNames[day - 1] else "Unknown"
  }

  /** Distinct days have distinct names, and no day is named "Unknown". */
  lemma DayNamesDistinct(a: int, b: int)
    requires 1 <= a <= 7 && 1 <= b <= 7 && a != b
    ensures DayName(a) != DayName(b)
    ensures DayName(a) != DayName(0)
  {
    assert DayName(a)[0] != DayName(b)[0] || DayName(a)[1] != DayName(b)[1];
    assert DayName(a)[0] != DayName(0)[0];
  }

  /** The values of the `course_type` enum: lectures, tutorials, practicals and exams. */
  const CourseTypes: set<string> := {"cours", "td", "tp", "examen"}

  const CourseLabels: map<string, string> := map["cours" := "Cours", "td" := "TD", "tp" := "TP", "examen" := "Examen"]

  /** `course_type_label`: the label of a known type, and the stored value itself otherwise. */
  function CourseTypeLabel(courseType: string): (r: string)
    ensures courseType in CourseTypes ==> r == CourseLabels[courseType]
    ensures courseType !in CourseTypes ==> r == courseType
  {
    if courseType in CourseLabels then CourseLabels[courseType] else courseType
  }

  /** The known types have distinct labels, but the label of an unknown value can coincide with one. */
  lemma CourseTypeLabels(a: string, b: string)
    requires a in CourseTypes && b in CourseTypes && a != b
    ensures CourseTypeLabel(a) != CourseTypeLabel(b)
    ensures CourseTypeLabel("TD") == CourseTypeLabel("td")
  {
    assert CourseTypeLabel(a)[1] != CourseTypeLabel(b)[1] || CourseTypeLabel(a)[0] != CourseTypeLabel(b)[0];
  }

  // Timetable order

  /** `orderBy('day_of_week')->orderBy('start_time')`. */
  function ItemOrder(i: PlanningItem): Key
  {
    Key(i.dayOfWeek, i.startTime)
  }

  /** The rows of `planning_items` that belong to planning `planningId`, in table order. */
  function ItemsOf(rows: seq<PlanningItem>, planningId: Id): (r: seq<PlanningItem>)
    ensures forall x :: multiset(r)[x] == if x.planningId == planningId then multiset(rows)[x] else 0
  {
    if rows == [] then []
    else
      assert rows == [rows[0]] + rows[1..];
      (if rows[0].planningId == planningId then [rows[0]] else []) + ItemsOf(rows[1..], planningId)
  }

  /** A planning's items in timetable order. */
  function OrderedItems(rows: seq<PlanningItem>, planningId: Id): seq<PlanningItem>
  {
    SortBy(ItemsOf(rows, planningId), ItemOrder)
  }

  /**
   * The timetable holds exactly the planning's items, each as often as in
   * the table, by day and then by start time.
   */
  lemma OrderedItemsAreTimetable(rows: seq<PlanningItem>, planningId: Id)
    ensures forall x :: multiset(OrderedItems(rows, planningId))[x] ==
                        if x.planningId == planningId then multiset(rows)[x] else 0
    ensures forall i, j :: 0 <= i < j < |OrderedItems(rows, planningId)| ==>
              var a := OrderedItems(rows, planningId)[i];
              var b := OrderedItems(rows, planningId)[j];
              a.dayOfWeek < b.dayOfWeek || (a.dayOfWeek == b.dayOfWeek && a.startTime <= b.startTime)
  {
    SortBySortedPermutation(ItemsOf(rows, planningId), ItemOrder);
  }
}
