/**
 * The database context (Data/EduSyncContext.cs): the per-relationship delete
 * behaviour table, the delete the database performs under it, and the context
 * object whose tables controllers change and commit.
 */
module Data {
  import opened Models

  datatype Table = Users | Courses | Enrollments | Assessments | Questions | Options | StudentAnswers

  /** A row of some table, named by its primary key. */
  datatype Row =
    | UserRow(id: int)
    | CourseRow(id: int)
    | EnrollmentRow(key: EnrollmentKey)
    | AssessmentRow(id: int)
    | QuestionRow(id: int)
    | OptionRow(id: int)
    | AnswerRow(id: int)
  {
    function TableOf(): Table
    {
      match this
      case UserRow(_) => Users
      case CourseRow(_) => Courses
      case EnrollmentRow(_) => Enrollments
      case AssessmentRow(_) => Assessments
      case QuestionRow(_) => Questions
      case OptionRow(_) => Options
      case AnswerRow(_) => StudentAnswers
    }
  }

  /** The foreign-key relationships configured in OnModelCreating, named dependent-then-principal. */
  datatype Relationship =
    | EnrollmentUser | EnrollmentCourse | CourseInstructor | AssessmentCourse
    | QuestionAssessment | OptionQuestion | AnswerQuestion | AnswerUser

  const AllRelationships: set<Relationship> :=
    {EnrollmentUser, EnrollmentCourse, CourseInstructor, AssessmentCourse,
     QuestionAssessment, OptionQuestion, AnswerQuestion, AnswerUser}

  datatype DeleteBehavior = Cascade | NoAction

  /**
   * The delete behaviour table of OnModelCreating: a relationship is NoAction
   * exactly when its foreign key sits in enrollments, courses or assessments.
   */
  function OnDelete(r: Relationship): (b: DeleteBehavior)
    ensures b == NoAction <==> Dependent(r) in {Enrollments, Courses, Assessments}
  {
    match r
    case EnrollmentUser => NoAction
    case EnrollmentCourse => NoAction
    case CourseInstructor => NoAction
    case AssessmentCourse => NoAction
    case QuestionAssessment => Cascade
    case OptionQuestion => Cascade
    case AnswerQuestion => Cascade
    case AnswerUser => Cascade
  }

  /** The table that holds the foreign key of `r`. */
  function Dependent(r: Relationship): Table
  {
    match r
    case EnrollmentUser => Enrollments
    case EnrollmentCourse => Enrollments
    case CourseInstructor => Courses
    case AssessmentCourse => Assessments
    case QuestionAssessment => Questions
    case OptionQuestion => Options
    case AnswerQuestion => StudentAnswers
    case AnswerUser => StudentAnswers
  }

  /** The table the foreign key of `r` points into. */
  function Principal(r: Relationship): Table
  {
    match r
    case EnrollmentUser => Users
    case EnrollmentCourse => Courses
    case CourseInstructor => Users
    case AssessmentCourse => Courses
    case QuestionAssessment => Assessments
    case OptionQuestion => Questions
    case AnswerQuestion => Questions
    case AnswerUser => Users
  }

  /** A height on tables under which every foreign key points upwards. */
  function Rank(t: Table): nat
  {
    match t
    case Users => 4
    case Courses => 3
    case Assessments => 2
    case Questions => 1
    case Enrollments => 0
    case Options => 0
    case StudentAnswers => 0
  }

  predicate Exists(s: Store, row: Row)
  {
    match row
    case UserRow(k) => k in s.users
    case CourseRow(k) => k in s.courses
    case EnrollmentRow(k) => k in s.enrollments
    case AssessmentRow(k) => k in s.assessments
    case QuestionRow(k) => k in s.questions
    case OptionRow(k) => k in s.options
    case AnswerRow(k) => k in s.answers
  }

  /** Row `d` of `s` references row `p` through the foreign key of `r`. */
  predicate RefersTo(s: Store, d: Row, r: Relationship, p: Row)
  {
    match r
    case EnrollmentUser =>
      d.EnrollmentRow? && d.key in s.enrollments && p == UserRow(s.enrollments[d.key].userId)
    case EnrollmentCourse =>
      d.EnrollmentRow? && d.key in s.enrollments && p == CourseRow(s.enrollments[d.key].courseId)
    case CourseInstructor =>
      d.CourseRow? && d.id in s.courses && p == UserRow(s.courses[d.id].instructorId)
    case AssessmentCourse =>
      d.AssessmentRow? && d.id in s.assessments && p == CourseRow(s.assessments[d.id].courseId)
    case QuestionAssessment =>
      d.QuestionRow? && d.id in s.questions && p == AssessmentRow(s.questions[d.id].assessmentId)
    case OptionQuestion =>
      d.OptionRow? && d.id in s.options && p == QuestionRow(s.options[d.id].questionId)
    case AnswerQuestion =>
      d.AnswerRow? && d.id in s.answers && p == QuestionRow(s.answers[d.id].questionId)
    case AnswerUser =>
      d.AnswerRow? && d.id in s.answers && p == UserRow(s.answers[d.id].userId)
  }

  /** The foreign keys respect the table structure and point up the rank. */
  lemma RefersToShape(s: Store, d: Row, r: Relationship, p: Row)
    requires RefersTo(s, d, r, p)
    ensures Exists(s, d)
    ensures d.TableOf() == Dependent(r) && p.TableOf() == Principal(r)
    ensures Rank(d.TableOf()) < Rank(p.TableOf())
  {
  }

  /** The rows of `s` that reference `p` through `r`. */
  function Referencing(s: Store, r: Relationship, p: Row): (ds: set<Row>)
    ensures forall d :: d in ds <==> RefersTo(s, d, r, p)
  {
    match r
    case EnrollmentUser =>
      set k | k in s.enrollments && p == UserRow(s.enrollments[k].userId) :: EnrollmentRow(k)
    case EnrollmentCourse =>
      set k | k in s.enrollments && p == CourseRow(s.enrollments[k].courseId) :: EnrollmentRow(k)
    case CourseInstructor =>
      set k | k in s.courses && p == UserRow(s.courses[k].instructorId) :: CourseRow(k)
    case AssessmentCourse =>
      set k | k in s.assessments && p == CourseRow(s.assessments[k].courseId) :: AssessmentRow(k)
    case QuestionAssessment =>
      set k | k in s.questions && p == AssessmentRow(s.questions[k].assessmentId) :: QuestionRow(k)
    case OptionQuestion =>
      set k | k in s.options && p == QuestionRow(s.options[k].questionId) :: OptionRow(k)
    case AnswerQuestion =>
      set k | k in s.answers && p == QuestionRow(s.answers[k].questionId) :: AnswerRow(k)
    case AnswerUser =>
      set k | k in s.answers && p == UserRow(s.answers[k].userId) :: AnswerRow(k)
  }

  /** The rows the database deletes directly when `p` is deleted: its dependents along Cascade edges. */
  function CascadeChildren(s: Store, p: Row): (cs: set<Row>)
    ensures forall d :: d in cs <==> exists r :: OnDelete(r) == Cascade && RefersTo(s, d, r, p)
    ensures forall d :: d in cs ==> Rank(d.TableOf()) < Rank(p.TableOf())
  {
    var cs := set r, d | r in AllRelationships && OnDelete(r) == Cascade && d in Referencing(s, r, p) :: d;
    assert forall d :: d in cs <== exists r :: OnDelete(r) == Cascade && RefersTo(s, d, r, p) by {
      forall d, r | OnDelete(r) == Cascade && RefersTo(s, d, r, p) ensures d in cs {
        assert r in AllRelationships && d in Referencing(s, r, p);
      }
    }
    forall d | d in cs ensures Rank(d.TableOf()) < Rank(p.TableOf()) {
      var r :| OnDelete(r) == Cascade && RefersTo(s, d, r, p);
      RefersToShape(s, d, r, p);
    }
    cs
  }

  /** Everything deleting `p` removes: `p` and, recursively, the cascade closure below it. */
  function Closure(s: Store, p: Row): (doomed: set<Row>)
    ensures p in doomed && CascadeChildren(s, p) <= doomed
    ensures forall x :: x in doomed ==> Rank(x.TableOf()) <= Rank(p.TableOf())
    decreases Rank(p.TableOf())
  {
    var doomed := {p} + set c, x | c in CascadeChildren(s, p) && x in Closure(s, c) :: x;
    forall c | c in CascadeChildren(s, p) ensures c in doomed {
      assert c in Closure(s, c);
    }
    doomed
  }

  /** The rows outside `doomed` that reference a doomed row through a NoAction relationship. */
  function Blockers(s: Store, doomed: set<Row>): (bs: set<Row>)
    ensures forall d :: d in bs <==>
      d !in doomed && exists r, q :: OnDelete(r) == NoAction && q in doomed && RefersTo(s, d, r, q)
  {
    var bs := set r, q, d | r in AllRelationships && OnDelete(r) == NoAction && q in doomed
                            && d in Referencing(s, r, q) && d !in doomed :: d;
    assert forall d :: d in bs <== d !in doomed && exists r, q :: OnDelete(r) == NoAction && q in doomed && RefersTo(s, d, r, q) by {
      forall d, r, q | d !in doomed && OnDelete(r) == NoAction && q in doomed && RefersTo(s, d, r, q) ensures d in bs {
        assert r in AllRelationships && d in Referencing(s, r, q);
      }
    }
    bs
  }

  /** `s` without the rows in `gone`. */
  function RemoveRows(s: Store, gone: set<Row>): Store
  {
    s.(users := map k | k in s.users && UserRow(k) !in gone :: s.users[k],
       courses := map k | k in s.courses && CourseRow(k) !in gone :: s.courses[k],
       enrollments := map k | k in s.enrollments && EnrollmentRow(k) !in gone :: s.enrollments[k],
       assessments := map k | k in s.assessments && AssessmentRow(k) !in gone :: s.assessments[k],
       questions := map k | k in s.questions && QuestionRow(k) !in gone :: s.questions[k],
       options := map k | k in s.options && OptionRow(k) !in gone :: s.options[k],
       answers := map k | k in s.answers && AnswerRow(k) !in gone :: s.answers[k])
  }

  datatype Refusal = Missing | Restricted(blockers: set<Row>)

  /**
   * The database's DELETE of row `p`: every row in the cascade closure of `p` is
   * removed, unless a row outside that closure still references a doomed row
   * through a NoAction relationship, in which case nothing changes.
   */
  function Delete(s: Store, p: Row): (r: Result<Store, Refusal>)
    ensures r == Err(Missing) <==> !Exists(s, p)
    ensures r.Err? && r.error.Restricted? ==> r.error.blockers != {}
    ensures r.Ok? ==> !Exists(r.value, p)
    ensures r.Ok? ==> forall row :: Exists(r.value, row) ==> Exists(s, row)
  {
    if !Exists(s, p) then Err(Missing)
    else
      var doomed := Closure(s, p);
      var blockers := Blockers(s, doomed);
      forall row ensures Exists(RemoveRows(s, doomed), row) <==> Exists(s, row) && row !in doomed {
        RemoveRowsExists(s, doomed, row);
      }
      if blockers != {} then Err(Restricted(blockers)) else Ok(RemoveRows(s, doomed))
  }

  // ----- what removing rows does -----

  /** A row survives a removal exactly when it existed and was not removed. */
  lemma RemoveRowsExists(s: Store, gone: set<Row>, row: Row)
    ensures Exists(RemoveRows(s, gone), row) <==> Exists(s, row) && row !in gone
  {
  }

  lemma RemoveRowsRefersTo(s: Store, gone: set<Row>, d: Row, r: Relationship, p: Row)
    ensures RefersTo(RemoveRows(s, gone), d, r, p) <==> RefersTo(s, d, r, p) && d !in gone
  {
  }

  /** In a consistent store every reference lands on an existing row. */
  lemma ReferencesResolve(s: Store, d: Row, r: Relationship, p: Row)
    requires Consistent(s) && RefersTo(s, d, r, p)
    ensures Exists(s, p)
  {
    match r
    case EnrollmentUser =>
    case EnrollmentCourse =>
    case CourseInstructor =>
    case AssessmentCourse =>
    case QuestionAssessment =>
    case OptionQuestion =>
    case AnswerQuestion =>
    case AnswerUser =>
  }

  /** A store all of whose references land on existing rows is consistent. */
  lemma ResolvedIsConsistent(s: Store)
    requires forall d, r, p :: RefersTo(s, d, r, p) ==> Exists(s, p)
    ensures Consistent(s)
  {
    forall k | k in s.courses ensures s.courses[k].instructorId in s.users {
      assert RefersTo(s, CourseRow(k), CourseInstructor, UserRow(s.courses[k].instructorId));
    }
    forall k | k in s.enrollments
      ensures s.enrollments[k].userId in s.users && s.enrollments[k].courseId in s.courses
    {
      assert RefersTo(s, EnrollmentRow(k), EnrollmentUser, UserRow(s.enrollments[k].userId));
      assert RefersTo(s, EnrollmentRow(k), EnrollmentCourse, CourseRow(s.enrollments[k].courseId));
    }
    forall k | k in s.assessments ensures s.assessments[k].courseId in s.courses {
      assert RefersTo(s, AssessmentRow(k), AssessmentCourse, CourseRow(s.assessments[k].courseId));
    }
    forall k | k in s.questions ensures s.questions[k].assessmentId in s.assessments {
      assert RefersTo(s, QuestionRow(k), QuestionAssessment, AssessmentRow(s.questions[k].assessmentId));
    }
    forall k | k in s.options ensures s.options[k].questionId in s.questions {
      assert RefersTo(s, OptionRow(k), OptionQuestion, QuestionRow(s.options[k].questionId));
    }
    forall k | k in s.answers ensures s.answers[k].questionId in s.questions && s.answers[k].userId in s.users {
      assert RefersTo(s, AnswerRow(k), AnswerQuestion, QuestionRow(s.answers[k].questionId));
      assert RefersTo(s, AnswerRow(k), AnswerUser, UserRow(s.answers[k].userId));
    }
  }

  /** Consistency, stated through the relationship table: every reference lands on an existing row. */
  lemma ConsistentByRelationships(s: Store)
    ensures Consistent(s) <==> forall d, r, p :: RefersTo(s, d, r, p) ==> Exists(s, p)
  {
    if Consistent(s) {
      forall d, r, p | RefersTo(s, d, r, p) ensures Exists(s, p) {
        ReferencesResolve(s, d, r, p);
      }
    }
    if forall d, r, p :: RefersTo(s, d, r, p) ==> Exists(s, p) {
      ResolvedIsConsistent(s);
    }
  }

  /** A set of rows that every row referencing one of its members also belongs to. */
  ghost predicate DownwardClosed(s: Store, gone: set<Row>)
  {
    forall d, r, p :: RefersTo(s, d, r, p) && p in gone ==> d in gone
  }

  /** Removing a downward-closed set of rows leaves no dangling foreign key. */
  lemma RemoveClosedKeepsValid(s: Store, gone: set<Row>)
    requires Valid(s) && DownwardClosed(s, gone)
    ensures Valid(RemoveRows(s, gone))
  {
    var t := RemoveRows(s, gone);
    ConsistentByRelationships(s);
    forall d, r, p | RefersTo(t, d, r, p) ensures Exists(t, p) {
      RemoveRowsRefersTo(s, gone, d, r, p);
      RemoveRowsExists(s, gone, p);
    }
    ConsistentByRelationships(t);
  }

  /** The closure of `p` contains the cascade children of each of its members. */
  lemma {:induction false} ClosureIsCascadeClosed(s: Store, p: Row, q: Row, c: Row)
    requires q in Closure(s, p) && c in CascadeChildren(s, q)
    ensures c in Closure(s, p)
    decreases Rank(p.TableOf())
  {
    assert c in Closure(s, c);
    if q != p {
      var c' :| c' in CascadeChildren(s, p) && q in Closure(s, c');
      ClosureIsCascadeClosed(s, c', q, c);
    }
  }

  /** A delete the database accepts leaves a valid database. */
  lemma DeleteKeepsValid(s: Store, p: Row)
    requires Valid(s) && Delete(s, p).Ok?
    ensures Valid(Delete(s, p).value)
  {
    var doomed := Closure(s, p);
    forall d, r, q | RefersTo(s, d, r, q) && q in doomed ensures d in doomed {
      if OnDelete(r) == Cascade {
        ClosureIsCascadeClosed(s, p, q, d);
      }
    }
    RemoveClosedKeepsValid(s, doomed);
  }

  // ----- the closures of this schema -----

  /** Options, student answers and enrollments are never principals, so deleting one deletes only it. */
  lemma LeafClosure(s: Store, p: Row)
    requires p.OptionRow? || p.AnswerRow? || p.EnrollmentRow?
    ensures CascadeChildren(s, p) == {}
    ensures Closure(s, p) == {p}
  {
    forall d, r | RefersTo(s, d, r, p) ensures false {
    }
  }

  function OptionRowsOf(s: Store, q: int): set<Row>
  {
    set o | o in s.options && s.options[o].questionId == q :: OptionRow(o)
  }

  function AnswerRowsOf(s: Store, q: int): set<Row>
  {
    set x | x in s.answers && s.answers[x].questionId == q :: AnswerRow(x)
  }

  /** Deleting a question reaches exactly its options and the student answers to it. */
  lemma QuestionClosure(s: Store, q: int)
    ensures Closure(s, QuestionRow(q)) == {QuestionRow(q)} + OptionRowsOf(s, q) + AnswerRowsOf(s, q)
  {
    var p := QuestionRow(q);
    var kids := OptionRowsOf(s, q) + AnswerRowsOf(s, q);
    forall d ensures d in CascadeChildren(s, p) <==> d in kids {
      if d in kids {
        if d.OptionRow? { assert RefersTo(s, d, OptionQuestion, p); }
        else { assert RefersTo(s, d, AnswerQuestion, p); }
      }
    }
    forall c | c in kids ensures Closure(s, c) == {c} {
      LeafClosure(s, c);
    }
  }

  function QuestionRowsOf(s: Store, a: int): set<Row>
  {
    set q | q in s.questions && s.questions[q].assessmentId == a :: QuestionRow(q)
  }

  /** The options and the student answers of the questions of assessment `a`. */
  function QuestionDependentsOf(s: Store, a: int): set<Row>
  {
    (set o | o in s.options && s.options[o].questionId in QuestionsOf(s, a) :: OptionRow(o))
    + (set x | x in s.answers && s.answers[x].questionId in QuestionsOf(s, a) :: AnswerRow(x))
  }

  lemma AssessmentChildren(s: Store, a: int)
    ensures CascadeChildren(s, AssessmentRow(a)) == QuestionRowsOf(s, a)
  {
    forall d | d in QuestionRowsOf(s, a) ensures d in CascadeChildren(s, AssessmentRow(a)) {
      assert RefersTo(s, d, QuestionAssessment, AssessmentRow(a));
    }
  }

  lemma AssessmentClosureWithin(s: Store, a: int, x: Row)
    requires x in Closure(s, AssessmentRow(a))
    ensures x in {AssessmentRow(a)} + QuestionRowsOf(s, a) + QuestionDependentsOf(s, a)
  {
    AssessmentChildren(s, a);
    if x != AssessmentRow(a) {
      var c :| c in QuestionRowsOf(s, a) && x in Closure(s, c);
      var q := c.id;
      assert c == QuestionRow(q) && q in QuestionsOf(s, a);
      QuestionClosure(s, q);
      if x in OptionRowsOf(s, q) {
        assert s.options[x.id].questionId in QuestionsOf(s, a);
      } else if x in AnswerRowsOf(s, q) {
        assert s.answers[x.id].questionId in QuestionsOf(s, a);
      }
    }
  }

  lemma AssessmentClosureCovers(s: Store, a: int, x: Row)
    requires x in {AssessmentRow(a)} + QuestionRowsOf(s, a) + QuestionDependentsOf(s, a)
    ensures x in Closure(s, AssessmentRow(a))
  {
    var p := AssessmentRow(a);
    AssessmentChildren(s, a);
    if x != p {
      var c;
      if x.OptionRow? {
        c := QuestionRow(s.options[x.id].questionId);
        QuestionClosure(s, c.id);
      } else if x.AnswerRow? {
        c := QuestionRow(s.answers[x.id].questionId);
        QuestionClosure(s, c.id);
      } else {
        c := x;
      }
      assert c in CascadeChildren(s, p) && x in Closure(s, c);
    }
  }

  /** Deleting an assessment reaches its questions and, through them, their options and answers. */
  lemma AssessmentClosure(s: Store, a: int)
    ensures Closure(s, AssessmentRow(a)) == {AssessmentRow(a)} + QuestionRowsOf(s, a) + QuestionDependentsOf(s, a)
  {
    forall x | x in Closure(s, AssessmentRow(a)) ensures x in {AssessmentRow(a)} + QuestionRowsOf(s, a) + QuestionDependentsOf(s, a) {
      AssessmentClosureWithin(s, a, x);
    }
    forall x | x in {AssessmentRow(a)} + QuestionRowsOf(s, a) + QuestionDependentsOf(s, a) ensures x in Closure(s, AssessmentRow(a)) {
      AssessmentClosureCovers(s, a, x);
    }
  }

  /** A course's only dependents are NoAction ones, so deleting it reaches no other row. */
  lemma CourseClosure(s: Store, c: int)
    ensures Closure(s, CourseRow(c)) == {CourseRow(c)}
  {
    var p := CourseRow(c);
    forall d, r | OnDelete(r) == Cascade && RefersTo(s, d, r, p) ensures false {
    }
    assert CascadeChildren(s, p) == {};
    assert Closure(s, p) == {p} + set c, x | c in CascadeChildren(s, p) && x in Closure(s, c) :: x;
  }

  /** Deleting a user reaches exactly the user's student answers. */
  lemma UserClosure(s: Store, u: int)
    ensures Closure(s, UserRow(u)) ==
      {UserRow(u)} + set x | x in s.answers && s.answers[x].userId == u :: AnswerRow(x)
  {
    var p := UserRow(u);
    var kids := set x | x in s.answers && s.answers[x].userId == u :: AnswerRow(x);
    forall d ensures d in CascadeChildren(s, p) <==> d in kids {
      if d in kids { assert RefersTo(s, d, AnswerUser, p); }
    }
    forall c | c in kids ensures Closure(s, c) == {c} {
      LeafClosure(s, c);
    }
  }

  // ----- the outcome of deleting one row of each kind -----

  /** With no blocker, the database removes the whole closure. */
  lemma DeleteUnblocked(s: Store, p: Row)
    requires Exists(s, p) && Blockers(s, Closure(s, p)) == {}
    ensures Delete(s, p) == Ok(RemoveRows(s, Closure(s, p)))
  {
  }

  /** Only users and courses are NoAction principals, so no other row can be blocked. */
  lemma NoBlockersBelowCourses(s: Store, doomed: set<Row>)
    requires forall row :: row in doomed ==> !row.UserRow? && !row.CourseRow?
    ensures Blockers(s, doomed) == {}
  {
    forall d, r, p | OnDelete(r) == NoAction && p in doomed && RefersTo(s, d, r, p) ensures false {
    }
  }

  lemma RemoveQuestionRows(s: Store, q: int, gone: set<Row>)
    requires forall k :: UserRow(k) !in gone && CourseRow(k) !in gone && AssessmentRow(k) !in gone
    requires forall k :: EnrollmentRow(k) !in gone
    requires forall k :: QuestionRow(k) in gone <==> k == q
    requires forall k :: k in s.options ==> (OptionRow(k) in gone <==> s.options[k].questionId == q)
    requires forall k :: k in s.answers ==> (AnswerRow(k) in gone <==> s.answers[k].questionId == q)
    ensures RemoveRows(s, gone) == s.(
      questions := s.questions - {q},
      options := map o | o in s.options && s.options[o].questionId != q :: s.options[o],
      answers := map x | x in s.answers && s.answers[x].questionId != q :: s.answers[x])
  {
    var t := RemoveRows(s, gone);
    assert t.users == s.users;
    assert t.courses == s.courses;
    assert t.enrollments == s.enrollments;
    assert t.assessments == s.assessments;
    assert t.questions == s.questions - {q};
    assert t.options == map o | o in s.options && s.options[o].questionId != q :: s.options[o];
    assert t.answers == map x | x in s.answers && s.answers[x].questionId != q :: s.answers[x];
  }

  lemma QuestionClosureRows(s: Store, q: int, doomed: set<Row>)
    requires doomed == {QuestionRow(q)} + OptionRowsOf(s, q) + AnswerRowsOf(s, q)
    ensures forall k :: UserRow(k) !in doomed && CourseRow(k) !in doomed && AssessmentRow(k) !in doomed
    ensures forall k :: EnrollmentRow(k) !in doomed
    ensures forall k :: QuestionRow(k) in doomed <==> k == q
    ensures forall k :: k in s.options ==> (OptionRow(k) in doomed <==> s.options[k].questionId == q)
    ensures forall k :: k in s.answers ==> (AnswerRow(k) in doomed <==> s.answers[k].questionId == q)
  {
    forall k | k in s.options && s.options[k].questionId == q ensures OptionRow(k) in doomed {
      assert OptionRow(k) in OptionRowsOf(s, q);
    }
    forall k | k in s.answers && s.answers[k].questionId == q ensures AnswerRow(k) in doomed {
      assert AnswerRow(k) in AnswerRowsOf(s, q);
    }
  }

  /** Deleting a question removes it with its options and the student answers to it, and nothing else. */
  lemma DeleteQuestionCascades(s: Store, q: int)
    requires q in s.questions
    ensures Delete(s, QuestionRow(q)) == Ok(s.(
      questions := s.questions - {q},
      options := map o | o in s.options && s.options[o].questionId != q :: s.options[o],
      answers := map x | x in s.answers && s.answers[x].questionId != q :: s.answers[x]))
  {
    QuestionClosure(s, q);
    var doomed := Closure(s, QuestionRow(q));
    QuestionClosureRows(s, q, doomed);
    NoBlockersBelowCourses(s, doomed);
    DeleteUnblocked(s, QuestionRow(q));
    RemoveQuestionRows(s, q, doomed);
  }

  lemma RemoveAssessmentRows(s: Store, a: int, gone: set<Row>)
    requires forall k :: UserRow(k) !in gone && CourseRow(k) !in gone
    requires forall k :: EnrollmentRow(k) !in gone
    requires forall k :: AssessmentRow(k) in gone <==> k == a
    requires forall k :: k in s.questions ==> (QuestionRow(k) in gone <==> s.questions[k].assessmentId == a)
    requires forall k :: k in s.options ==> (OptionRow(k) in gone <==> s.options[k].questionId in QuestionsOf(s, a))
    requires forall k :: k in s.answers ==> (AnswerRow(k) in gone <==> s.answers[k].questionId in QuestionsOf(s, a))
    ensures RemoveRows(s, gone) == s.(
      assessments := s.assessments - {a},
      questions := map k | k in s.questions && s.questions[k].assessmentId != a :: s.questions[k],
      options := map o | o in s.options && s.options[o].questionId !in QuestionsOf(s, a) :: s.options[o],
      answers := map x | x in s.answers && s.answers[x].questionId !in QuestionsOf(s, a) :: s.answers[x])
  {
    var t := RemoveRows(s, gone);
    assert t.users == s.users;
    assert t.courses == s.courses;
    assert t.enrollments == s.enrollments;
    assert t.assessments == s.assessments - {a};
    assert t.questions == map k | k in s.questions && s.questions[k].assessmentId != a :: s.questions[k];
    assert t.options == map o | o in s.options && s.options[o].questionId !in QuestionsOf(s, a) :: s.options[o];
    assert t.answers == map x | x in s.answers && s.answers[x].questionId !in QuestionsOf(s, a) :: s.answers[x];
  }

  lemma AssessmentClosureRows(s: Store, a: int, doomed: set<Row>)
    requires doomed == {AssessmentRow(a)} + QuestionRowsOf(s, a) + QuestionDependentsOf(s, a)
    ensures forall k :: UserRow(k) !in doomed && CourseRow(k) !in doomed
    ensures forall k :: EnrollmentRow(k) !in doomed
    ensures forall k :: AssessmentRow(k) in doomed <==> k == a
    ensures forall k :: k in s.questions ==> (QuestionRow(k) in doomed <==> s.questions[k].assessmentId == a)
    ensures forall k :: k in s.options ==> (OptionRow(k) in doomed <==> s.options[k].questionId in QuestionsOf(s, a))
    ensures forall k :: k in s.answers ==> (AnswerRow(k) in doomed <==> s.answers[k].questionId in QuestionsOf(s, a))
  {
    forall k | k in s.questions && s.questions[k].assessmentId == a ensures QuestionRow(k) in doomed {
      assert QuestionRow(k) in QuestionRowsOf(s, a);
    }
  }

  /** Deleting an assessment removes it, its questions and their options and answers, and nothing else. */
  lemma DeleteAssessmentCascades(s: Store, a: int)
    requires a in s.assessments
    ensures Delete(s, AssessmentRow(a)) == Ok(s.(
      assessments := s.assessments - {a},
      questions := map k | k in s.questions && s.questions[k].assessmentId != a :: s.questions[k],
      options := map o | o in s.options && s.options[o].questionId !in QuestionsOf(s, a) :: s.options[o],
      answers := map x | x in s.answers && s.answers[x].questionId !in QuestionsOf(s, a) :: s.answers[x]))
  {
    var doomed := Closure(s, AssessmentRow(a));
    AssessmentClosure(s, a);
    AssessmentClosureRows(s, a, doomed);
    NoBlockersBelowCourses(s, doomed);
    DeleteUnblocked(s, AssessmentRow(a));
    RemoveAssessmentRows(s, a, doomed);
  }

  /** The rows that block deleting course `c`: its assessments and its enrollments. */
  lemma CourseBlockers(s: Store, c: int)
    ensures Blockers(s, {CourseRow(c)}) ==
      (set a | a in AssessmentsOf(s, c) :: AssessmentRow(a)) + (set k | k in EnrollmentsOf(s, c) :: EnrollmentRow(k))
  {
    var doomed := {CourseRow(c)};
    forall a | a in AssessmentsOf(s, c) ensures AssessmentRow(a) in Blockers(s, doomed) {
      assert RefersTo(s, AssessmentRow(a), AssessmentCourse, CourseRow(c));
    }
    forall k | k in EnrollmentsOf(s, c) ensures EnrollmentRow(k) in Blockers(s, doomed) {
      assert RefersTo(s, EnrollmentRow(k), EnrollmentCourse, CourseRow(c));
    }
    forall d | d in Blockers(s, doomed)
      ensures (d.AssessmentRow? && d.id in AssessmentsOf(s, c)) || (d.EnrollmentRow? && d.key in EnrollmentsOf(s, c))
    {
      var r, p :| OnDelete(r) == NoAction && p in doomed && RefersTo(s, d, r, p);
    }
  }

  lemma RemoveCourseRow(s: Store, c: int)
    ensures RemoveRows(s, {CourseRow(c)}) == s.(courses := s.courses - {c})
  {
    var t := RemoveRows(s, {CourseRow(c)});
    assert t.users == s.users;
    assert t.courses == s.courses - {c};
    assert t.enrollments == s.enrollments;
    assert t.assessments == s.assessments;
    assert t.questions == s.questions;
    assert t.options == s.options;
    assert t.answers == s.answers;
  }

  /**
   * Deleting a course is refused while an assessment or an enrollment still
   * references it; otherwise only the course row goes.
   */
  lemma DeleteCourseRestricted(s: Store, c: int)
    requires c in s.courses
    ensures Delete(s, CourseRow(c)).Ok? <==> AssessmentsOf(s, c) == {} && EnrollmentsOf(s, c) == {}
    ensures Delete(s, CourseRow(c)).Ok? ==> Delete(s, CourseRow(c)).value == s.(courses := s.courses - {c})
  {
    CourseClosure(s, c);
    CourseBlockers(s, c);
    var blockers := Blockers(s, {CourseRow(c)});
    forall a | a in AssessmentsOf(s, c) ensures AssessmentRow(a) in blockers {
    }
    forall k | k in EnrollmentsOf(s, c) ensures EnrollmentRow(k) in blockers {
    }
    RemoveCourseRow(s, c);
  }

  /** The users who instruct a course or hold an enrollment cannot be deleted. */
  ghost predicate StillReferenced(s: Store, u: int)
  {
    (exists k :: k in s.courses && s.courses[k].instructorId == u)
    || (exists k :: k in s.enrollments && s.enrollments[k].userId == u)
  }

  lemma UserBlockers(s: Store, u: int, doomed: set<Row>)
    requires forall row :: row in doomed <==>
      row == UserRow(u) || (row.AnswerRow? && row.id in s.answers && s.answers[row.id].userId == u)
    ensures Blockers(s, doomed) == {} <==> !StillReferenced(s, u)
  {
    if k :| k in s.courses && s.courses[k].instructorId == u {
      assert RefersTo(s, CourseRow(k), CourseInstructor, UserRow(u));
      assert CourseRow(k) in Blockers(s, doomed);
    } else if k :| k in s.enrollments && s.enrollments[k].userId == u {
      assert RefersTo(s, EnrollmentRow(k), EnrollmentUser, UserRow(u));
      assert EnrollmentRow(k) in Blockers(s, doomed);
    } else {
      forall d, r, p | OnDelete(r) == NoAction && p in doomed && RefersTo(s, d, r, p) ensures false {
      }
    }
  }

  lemma UserClosureRows(s: Store, u: int, gone: set<Row>)
    requires forall row :: row in gone <==>
      row == UserRow(u) || (row.AnswerRow? && row.id in s.answers && s.answers[row.id].userId == u)
    ensures forall k :: UserRow(k) in gone <==> k == u
    ensures forall k :: CourseRow(k) !in gone && AssessmentRow(k) !in gone && QuestionRow(k) !in gone && OptionRow(k) !in gone
    ensures forall k :: EnrollmentRow(k) !in gone
    ensures forall k :: k in s.answers ==> (AnswerRow(k) in gone <==> s.answers[k].userId == u)
  {
  }

  lemma RemoveUserRows(s: Store, u: int, gone: set<Row>)
    requires forall k :: UserRow(k) in gone <==> k == u
    requires forall k :: CourseRow(k) !in gone && AssessmentRow(k) !in gone && QuestionRow(k) !in gone && OptionRow(k) !in gone
    requires forall k :: EnrollmentRow(k) !in gone
    requires forall k :: k in s.answers ==> (AnswerRow(k) in gone <==> s.answers[k].userId == u)
    ensures RemoveRows(s, gone) == s.(
      users := s.users - {u},
      answers := map x | x in s.answers && s.answers[x].userId != u :: s.answers[x])
  {
    var t := RemoveRows(s, gone);
    assert t.users == s.users - {u};
    assert t.courses == s.courses;
    assert t.enrollments == s.enrollments;
    assert t.assessments == s.assessments;
    assert t.questions == s.questions;
    assert t.options == s.options;
    assert t.answers == map x | x in s.answers && s.answers[x].userId != u :: s.answers[x];
  }

  /**
   * Deleting a user is refused while they instruct a course or hold an
   * enrollment; otherwise the user goes together with their student answers.
   */
  lemma DeleteUserRestricted(s: Store, u: int)
    requires u in s.users
    ensures Delete(s, UserRow(u)).Ok? <==> !StillReferenced(s, u)
    ensures Delete(s, UserRow(u)).Ok? ==> Delete(s, UserRow(u)).value == s.(
      users := s.users - {u},
      answers := map x | x in s.answers && s.answers[x].userId != u :: s.answers[x])
  {
    UserClosure(s, u);
    var doomed := Closure(s, UserRow(u));
    UserBlockers(s, u, doomed);
    UserClosureRows(s, u, doomed);
    RemoveUserRows(s, u, doomed);
  }

  // ----- adding rows -----

  /** A new course under a fresh id is accepted exactly when its instructor exists. */
  lemma AddCourseChecked(s: Store, id: int, c: Course)
    requires Valid(s) && id == s.nextId
    ensures var t := s.(courses := s.courses[id := c], nextId := id + 1);
      IdentityOk(t) && EnrollmentKeysMatch(t) && (Consistent(t) <==> c.instructorId in s.users)
  {
    var t := s.(courses := s.courses[id := c], nextId := id + 1);
    assert id in t.courses && t.courses[id] == c;
  }

  /** Rewriting a course under its own instructor keeps the store valid. */
  lemma ReplaceCourseKeepsValid(s: Store, id: int, c: Course)
    requires Valid(s) && id in s.courses && c.instructorId == s.courses[id].instructorId
    ensures Valid(s.(courses := s.courses[id := c]))
  {
  }

  // ----- the context object -----

  /**
   * The database as the controllers see it through EduSyncContext: one field per
   * DbSet. A controller stages its changes on a copy of `State()` (the change
   * tracker) and commits them with one `SaveChanges`.
   */
  class EduSyncContext {
    var users: map<int, User>
    var courses: map<int, Course>
    var enrollments: map<EnrollmentKey, Enrollment>
    var assessments: map<int, Assessment>
    var questions: map<int, Question>
    var options: map<int, Option>
    var answers: map<int, StudentAnswer>
    var nextId: int

    /** The committed tables as one value. */
    function State(): (s: Store)
      reads this
      ensures s.users == users && s.courses == courses && s.enrollments == enrollments
      ensures s.assessments == assessments && s.questions == questions
      ensures s.options == options && s.answers == answers && s.nextId == nextId
    {
      Store(users, courses, enrollments, assessments, questions, options, answers, nextId)
    }

    ghost predicate Valid()
      reads this
    {
      Models.Valid(State())
    }

    constructor ()
      ensures State() == EmptyStore() && Valid()
    {
      users, courses, enrollments := map[], map[], map[];
      assessments, questions, options, answers := map[], map[], map[], map[];
      nextId := 1;
    }

    /**
     * Commits the staged state in one transaction: the database accepts it
     * exactly when every foreign key of it resolves, and otherwise rolls back
     * and nothing changes.
     */
    method SaveChanges(pending: Store) returns (saved: bool)
      requires Valid() && IdentityOk(pending) && EnrollmentKeysMatch(pending)
      modifies this
      ensures Valid()
      ensures saved <==> Consistent(pending)
      ensures State() == if saved then pending else old(State())
    {
      saved := Consistent(pending);
      if saved {
        users, courses, enrollments := pending.users, pending.courses, pending.enrollments;
        assessments, questions := pending.assessments, pending.questions;
        options, answers, nextId := pending.options, pending.answers, pending.nextId;
        assert State() == pending;
      }
    }
  }
}
