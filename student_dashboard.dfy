/**
 * Edusync_frontend/src/components/StudentDashboard.js: which courses a
 * student is offered, and the status badge and button of each assessment.
 */
module StudentDashboard {
  import opened Models
  import opened Sequences

  /** A course as the dashboard lists it; only its id matters here. */
  datatype CourseCard = CourseCard(id: int, title: string)

  /** The ids of a course list, in order. */
  function Ids(courses: seq<CourseCard>): (r: seq<int>)
    ensures |r| == |courses|
    ensures forall i :: 0 <= i < |courses| ==> r[i] == courses[i].id
  {
    seq(|courses|, i requires 0 <= i < |courses| => courses[i].id)
  }

  lemma IdsMembers(courses: seq<CourseCard>, id: int)
    ensures id in Ids(courses) <==> exists c :: c in courses && c.id == id
  {
    if id in Ids(courses) {
      var i :| 0 <= i < |courses| && Ids(courses)[i] == id;
      assert courses[i] in courses;
    }
  }

  /** The catalogue courses whose id is not among the enrolled courses' ids, in catalogue order. */
  function AvailableCourses(all: seq<CourseCard>, enrolled: seq<CourseCard>): (r: seq<CourseCard>)
    ensures forall c :: c in r <==> c in all && forall e :: e in enrolled ==> e.id != c.id
  {
    var ids := Ids(enrolled);
    var r := Filter(all, (c: CourseCard) => c.id !in ids);
    forall c ensures c in r <==> c in all && forall e :: e in enrolled ==> e.id != c.id {
      FilterMembers(all, (c: CourseCard) => c.id !in ids, c);
      IdsMembers(enrolled, c.id);
    }
    r
  }

  /** The list splits like the catalogue: each part keeps its own order. */
  lemma AvailableKeepsOrder(all: seq<CourseCard>, more: seq<CourseCard>, enrolled: seq<CourseCard>)
    ensures AvailableCourses(all + more, enrolled) == AvailableCourses(all, enrolled) + AvailableCourses(more, enrolled)
  {
    FilterConcat(all, more, (c: CourseCard) => c.id !in Ids(enrolled));
  }

  /** handleEnrollClick: after enrolling, the course with that id leaves the available list. */
  function AfterEnroll(available: seq<CourseCard>, courseId: int): (r: seq<CourseCard>)
    ensures forall c :: c in r <==> c in available && c.id != courseId
  {
    var r := Filter(available, (c: CourseCard) => c.id != courseId);
    forall c ensures c in r <==> c in available && c.id != courseId {
      FilterMembers(available, (c: CourseCard) => c.id != courseId, c);
    }
    r
  }

  /**
   * Dropping the enrolled course from the available list gives the list a
   * full reload would compute with that course among the enrolled ones.
   */
  lemma AfterEnrollMatchesReload(all: seq<CourseCard>, enrolled: seq<CourseCard>, course: CourseCard)
    ensures AfterEnroll(AvailableCourses(all, enrolled), course.id) == AvailableCourses(all, enrolled + [course])
  {
    var ids := Ids(enrolled);
    var ids2 := Ids(enrolled + [course]);
    assert ids2 == ids + [course.id];
    var p := (c: CourseCard) => c.id !in ids;
    var q := (c: CourseCard) => c.id != course.id;
    var both := (c: CourseCard) => c.id !in ids2;
    FilterFilter(all, p, q, both);
  }

  /** An assessment card: its dates (missing when not set) and whether the student has completed it. */
  datatype AssessmentCard = AssessmentCard(startDate: Nullable<int>, endDate: Nullable<int>, isCompleted: bool)

  /** getAssessmentStatusText at time `now`. */
  function StatusText(a: AssessmentCard, now: int): (r: string)
    ensures r == "Pending" <==> a.startDate.Null? || a.endDate.Null?
    ensures r == "Completed" <==> a.startDate.Some? && a.endDate.Some? && a.isCompleted
    ensures r == "Active" <==>
      a.startDate.Some? && a.endDate.Some? && !a.isCompleted && a.startDate.value <= now <= a.endDate.value
    ensures r == "Upcoming" <==>
      a.startDate.Some? && a.endDate.Some? && !a.isCompleted && now < a.startDate.value
    ensures r == "Expired" <==>
      a.startDate.Some? && a.endDate.Some? && !a.isCompleted && a.startDate.value <= now && a.endDate.value < now
    ensures r in {"Pending", "Completed", "Upcoming", "Active", "Expired"}
  {
    if a.startDate.Null? || a.endDate.Null? then "Pending"
    else
      var start := a.startDate.value;
      var end := a.endDate.value;
      if a.isCompleted then "Completed"
      else if now < start then "Upcoming"
      else if now >= start && now <= end then "Active"
      else "Expired"
  }

  /** getAssessmentStatusClass at time `now`: the same decisions as the text, as a style class. */
  function StatusClass(a: AssessmentCard, now: int): (r: string)
    ensures r == "status-active" <==>
      a.startDate.Some? && a.endDate.Some? && !a.isCompleted && a.startDate.value <= now <= a.endDate.value
  {
    if a.startDate.Null? || a.endDate.Null? then "status-pending"
    else
      var start := a.startDate.value;
      var end := a.endDate.value;
      if a.isCompleted then "status-completed"
      else if now < start then "status-upcoming"
      else if now >= start && now <= end then "status-active"
      else "status-expired"
  }

  /** The style class that belongs to each status text. */
  function ClassOfText(text: string): string
  {
    if text == "Pending" then "status-pending"
    else if text == "Completed" then "status-completed"
    else if text == "Upcoming" then "status-upcoming"
    else if text == "Active" then "status-active"
    else "status-expired"
  }

  /** The badge's class always agrees with its text. */
  lemma StatusClassMatchesText(a: AssessmentCard, now: int)
    ensures StatusClass(a, now) == ClassOfText(StatusText(a, now))
  {
  }

  /** The assessment button: enabled only while the badge shows "status-active". */
  predicate TakeEnabled(a: AssessmentCard, now: int)
  {
    StatusClass(a, now) == "status-active"
  }

  /** The button is enabled exactly within the assessment's window, when both dates are set and it is not completed. */
  lemma TakeEnabledInWindow(a: AssessmentCard, now: int)
    ensures TakeEnabled(a, now) <==>
      a.startDate.Some? && a.endDate.Some? && !a.isCompleted && a.startDate.value <= now <= a.endDate.value
    ensures TakeEnabled(a, now) <==> StatusText(a, now) == "Active"
  {
  }

  /** A completed assessment's button reads "View Results" but is never enabled. */
  lemma CompletedButtonDisabled(a: AssessmentCard, now: int)
    requires a.isCompleted
    ensures !TakeEnabled(a, now)
  {
  }
}
