/**
 * Controllers/EnrollmentsController.cs: enrolling a student in a course,
 * withdrawing, and the two enrollment queries.
 */
module EnrollmentsController {
  import opened Models
  import opened Data

  /** The enrollment rows of user `u` in course `c`, as the duplicate check looks them up. */
  function PairRows(s: Store, u: int, c: int): set<EnrollmentKey>
  {
    set k | k in s.enrollments && s.enrollments[k].userId == u && s.enrollments[k].courseId == c
  }

  /** Looking a pair up by value finds at most the row under the key (u, c). */
  lemma PairRowsByKey(s: Store, u: int, c: int)
    requires EnrollmentKeysMatch(s)
    ensures PairRows(s, u, c) == if (u, c) in s.enrollments then {(u, c)} else {}
  {
    if (u, c) in s.enrollments {
      assert (u, c) in PairRows(s, u, c);
    }
  }

  /** EnrollStudent's guards: no enrollment for the pair yet, an existing course, a user whose role is "Student". */
  predicate CanEnroll(s: Store, u: int, c: int): (b: bool)
    ensures b && EnrollmentKeysMatch(s) ==> PairRows(s, u, c) == {}
    ensures b ==> Exists(s, CourseRow(c)) && Exists(s, UserRow(u))
  {
    (u, c) !in s.enrollments && c in s.courses && u in s.users && s.users[u].role == StudentRole
  }

  /** The store with the enrollment of `u` in `c`, dated `now`. */
  function Enrolled(s: Store, u: int, c: int, now: int): Store
  {
    s.(enrollments := s.enrollments[(u, c) := Enrollment(u, c, now)])
  }

  /** The store without the enrollment of `u` in `c`. */
  function Withdrawn(s: Store, u: int, c: int): Store
  {
    s.(enrollments := s.enrollments - {(u, c)})
  }

  /** An enrollment that passes the guards keeps the store valid and leaves one row for the pair. */
  lemma EnrollKeepsValid(s: Store, u: int, c: int, now: int)
    requires Valid(s) && CanEnroll(s, u, c)
    ensures Valid(Enrolled(s, u, c, now))
    ensures PairRows(Enrolled(s, u, c, now), u, c) == {(u, c)}
  {
    PairRowsByKey(Enrolled(s, u, c, now), u, c);
  }

  /** Withdrawing keeps the store valid and leaves no row for the pair. */
  lemma WithdrawKeepsValid(s: Store, u: int, c: int)
    requires Valid(s)
    ensures Valid(Withdrawn(s, u, c))
    ensures PairRows(Withdrawn(s, u, c), u, c) == {}
  {
    PairRowsByKey(Withdrawn(s, u, c), u, c);
  }

  /** Withdrawing undoes an enrollment, and after a withdrawal the same student may enroll again. */
  lemma WithdrawUndoesEnroll(s: Store, u: int, c: int, now: int)
    requires (u, c) !in s.enrollments
    ensures Withdrawn(Enrolled(s, u, c, now), u, c) == s
    ensures CanEnroll(s, u, c) ==> CanEnroll(Withdrawn(Enrolled(s, u, c, now), u, c), u, c)
  {
    assert Withdrawn(Enrolled(s, u, c, now), u, c).enrollments == s.enrollments;
  }

  /**
   * EnrollStudent: BadRequest when the pair is already enrolled, NotFound for
   * an unknown course, BadRequest when the user is missing or not a student;
   * otherwise exactly one enrollment, dated `now`, is added.
   */
  method EnrollStudent(db: EduSyncContext, u: int, c: int, now: int) returns (r: Result<(), Status>)
    requires db.Valid()
    modifies db
    ensures db.Valid()
    ensures (u, c) in old(db.enrollments) ==> r == Err(BadRequest)
    ensures (u, c) !in old(db.enrollments) && c !in old(db.courses) ==> r == Err(NotFound)
    ensures (u, c) !in old(db.enrollments) && c in old(db.courses) && !(u in old(db.users) && old(db.users)[u].role == StudentRole) ==>
      r == Err(BadRequest)
    ensures r.Ok? <==> CanEnroll(old(db.State()), u, c)
    ensures r.Err? ==> db.State() == old(db.State())
    ensures r.Ok? ==> db.State() == Enrolled(old(db.State()), u, c, now)
    ensures (u, c) in old(db.enrollments) || r.Ok? ==> PairRows(db.State(), u, c) == {(u, c)}
  {
    var s := db.State();
    PairRowsByKey(s, u, c);
    if PairRows(s, u, c) != {} {
      return Err(BadRequest);
    }
    if c !in s.courses {
      return Err(NotFound);
    }
    if !(u in s.users && s.users[u].role == StudentRole) {
      return Err(BadRequest);
    }
    EnrollKeepsValid(s, u, c, now);
    var saved := db.SaveChanges(Enrolled(s, u, c, now));
    assert saved;
    r := Ok(());
  }

  /** WithdrawStudent: NotFound when the pair is not enrolled; otherwise exactly that enrollment is removed. */
  method WithdrawStudent(db: EduSyncContext, u: int, c: int) returns (r: Result<(), Status>)
    requires db.Valid()
    modifies db
    ensures db.Valid()
    ensures r.Err? <==> (u, c) !in old(db.enrollments)
    ensures r.Err? ==> r.error == NotFound && db.State() == old(db.State())
    ensures r.Ok? ==> db.State() == Withdrawn(old(db.State()), u, c)
    ensures PairRows(db.State(), u, c) == {}
  {
    var s := db.State();
    PairRowsByKey(s, u, c);
    if PairRows(s, u, c) == {} {
      return Err(NotFound);
    }
    WithdrawKeepsValid(s, u, c);
    var saved := db.SaveChanges(Withdrawn(s, u, c));
    assert saved;
    r := Ok(());
  }

  /** Enroll, withdraw and enroll again on a pair that passes the guards: each call succeeds and one row remains. */
  method EnrollWithdrawEnroll(db: EduSyncContext, u: int, c: int, t1: int, t3: int) returns (r1: Result<(), Status>, r2: Result<(), Status>, r3: Result<(), Status>)
    requires db.Valid() && CanEnroll(db.State(), u, c)
    modifies db
    ensures r1.Ok? && r2.Ok? && r3.Ok?
    ensures db.State() == Enrolled(old(db.State()), u, c, t3)
    ensures PairRows(db.State(), u, c) == {(u, c)}
  {
    var s := db.State();
    r1 := EnrollStudent(db, u, c, t1);
    r2 := WithdrawStudent(db, u, c);
    WithdrawUndoesEnroll(s, u, c, t1);
    assert db.State() == s;
    r3 := EnrollStudent(db, u, c, t3);
  }

  /**
   * GetEnrolledStudents: NotFound for an unknown course; otherwise the users
   * enrolled in it whose role is "Student", with their enrollment dates, and
   * their number.
   */
  function GetEnrolledStudents(s: Store, c: int): (r: Result<Roster, Status>)
    requires EnrollmentKeysMatch(s)
    ensures r.Err? <==> c !in s.courses
    ensures r.Err? ==> r.error == NotFound
    ensures r.Ok? ==> r.value.totalStudents == |r.value.students|
    ensures r.Ok? ==> forall d :: d in r.value.students <==>
      (exists k :: k in s.enrollments && s.enrollments[k].courseId == c && k.0 in s.users && s.users[k.0].role == StudentRole
                   && d == UserDto(k.0, s.users[k.0].username, s.users[k.0].email, s.users[k.0].role,
                                   Some(s.enrollments[k].enrollmentDate)))
  {
    if c !in s.courses then Err(NotFound)
    else
      var keys := StudentEnrollmentsOf(s, c);
      RosterSize(s, keys, c, true);
      Ok(Roster(StudentsOf(s, keys, true), |keys|))
  }

  /** A course as GetEnrolledCourses returns it, with its instructor's username and the enrollment date. */
  datatype CourseView = CourseView(
    id: int,
    title: string,
    description: string,
    instructorId: int,
    instructorUsername: string,
    videoUrl: Nullable<string>,
    thumbnailUrl: Nullable<string>,
    enrollmentDate: int)

  function ViewOfEnrollment(s: Store, k: EnrollmentKey): CourseView
    requires Consistent(s) && k in s.enrollments
  {
    var e := s.enrollments[k];
    var course := s.courses[e.courseId];
    CourseView(e.courseId, course.title, course.description, course.instructorId,
               s.users[course.instructorId].username, course.videoUrl, course.thumbnailUrl, e.enrollmentDate)
  }

  /**
   * GetEnrolledCourses: NotFound for an unknown user, BadRequest for a user
   * who is not a student; otherwise one entry per enrollment of that user.
   */
  function GetEnrolledCourses(s: Store, u: int): (r: Result<set<CourseView>, Status>)
    requires Valid(s)
    ensures u !in s.users ==> r == Err(NotFound)
    ensures u in s.users && s.users[u].role != StudentRole ==> r == Err(BadRequest)
    ensures r.Ok? <==> u in s.users && s.users[u].role == StudentRole
    ensures r.Ok? ==> forall v :: v in r.value <==>
      exists c :: (u, c) in s.enrollments && v == ViewOfEnrollment(s, (u, c))
    ensures r.Ok? ==> forall v :: v in r.value ==> v.id in s.courses && (u, v.id) in s.enrollments
  {
    if u !in s.users then Err(NotFound)
    else if s.users[u].role != StudentRole then Err(BadRequest)
    else Ok(set k | k in s.enrollments && s.enrollments[k].userId == u :: ViewOfEnrollment(s, k))
  }
}
