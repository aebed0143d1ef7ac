/** The EduSync entity records (the Models folder) and the database snapshot that holds them. */
module Models {

  /** A C# `string?` / `int?` or a JavaScript value that may be missing. */
  datatype Nullable<+T> = Null | Some(value: T)

  /** The outcome of an operation that can fail with an error value. */
  datatype Result<+T, +E> = Ok(value: T) | Err(error: E)

  /** Unicode category Zs, the space separators. */
  predicate IsSpaceSeparator(c: char)
  {
    c == ' ' || c == '\U{A0}' || c == '\U{1680}' || ('\U{2000}' <= c <= '\U{200A}')
    || c == '\U{202F}' || c == '\U{205F}' || c == '\U{3000}'
  }

  /**
   * .NET's char.IsWhiteSpace, behind string.IsNullOrWhiteSpace and the
   * [Required] annotation: the space separators, the line and paragraph
   * separators, U+0009 to U+000D and U+0085.
   */
  predicate IsSpaceNet(c: char)
  {
    IsSpaceSeparator(c) || c == '\U{2028}' || c == '\U{2029}' || ('\t' <= c <= '\r') || c == '\U{85}'
  }

  /**
   * What JavaScript's String.prototype.trim strips: the WhiteSpace (U+0009,
   * U+000B, U+000C, U+FEFF and the space separators) and LineTerminator
   * (U+000A, U+000D, U+2028, U+2029) characters.
   */
  predicate IsSpaceJs(c: char)
  {
    IsSpaceSeparator(c) || c == '\U{2028}' || c == '\U{2029}' || ('\t' <= c <= '\r') || c == '\U{FEFF}'
  }

  /** The two notions differ in exactly two characters: U+0085 is .NET-only, U+FEFF JavaScript-only. */
  lemma SpaceNetVersusJs(c: char)
    ensures IsSpaceNet(c) && !IsSpaceJs(c) <==> c == '\U{85}'
    ensures IsSpaceJs(c) && !IsSpaceNet(c) <==> c == '\U{FEFF}'
  {
  }

  /** string.IsNullOrWhiteSpace on a present string: empty or only .NET whitespace. */
  predicate IsBlankNet(s: string)
  {
    forall i :: 0 <= i < |s| ==> IsSpaceNet(s[i])
  }

  /** `!s.trim()` in JavaScript: empty or only characters trim strips. */
  predicate IsBlankJs(s: string)
  {
    forall i :: 0 <= i < |s| ==> IsSpaceJs(s[i])
  }

  /** The number of UTF-16 code units of `s`: two for a character beyond U+FFFF, one otherwise. */
  function Utf16Length(s: string): (n: nat)
    ensures |s| <= n <= 2 * |s|
    ensures n == |s| <==> forall i :: 0 <= i < |s| ==> s[i] as int <= 0xFFFF
    decreases |s|
  {
    if s == [] then 0
    else
      var init := s[..|s| - 1];
      assert forall i :: 0 <= i < |init| ==> init[i] == s[i];
      Utf16Length(init) + (if s[|s| - 1] as int > 0xFFFF then 2 else 1)
  }

  const StudentRole: string := "Student"
  const EducatorRole: string := "Educator"

  /** Models/User.cs. The password is stored as given. */
  datatype User = User(username: string, password: string, email: string, role: string)

  /** Models/Course.cs plus the ModulePdfUrl column added by a later migration. */
  datatype Course = Course(
    title: string,
    description: string,
    instructorId: int,
    videoUrl: Nullable<string>,
    thumbnailUrl: Nullable<string>,
    modulePdfUrl: Nullable<string>)

  /** Models/Enrollment.cs; the row is keyed by (UserId, CourseId). Dates are clock ticks. */
  datatype Enrollment = Enrollment(userId: int, courseId: int, enrollmentDate: int)

  /** Models/Assessment.cs. */
  datatype Assessment = Assessment(title: string, description: string, startDate: int, endDate: int, courseId: int)

  /** The Question class of Models/Assessment.cs; its options are the rows that name it. */
  datatype Question = Question(text: string, questionType: string, assessmentId: int)

  /** The Option class of Models/Assessment.cs. */
  datatype Option = Option(text: string, isCorrect: bool, questionId: int)

  /** The StudentAnswer class of Models/Assessment.cs. */
  datatype StudentAnswer = StudentAnswer(questionId: int, userId: int, answerText: string, answeredOn: int)

  /** The composite key of an enrollment: (UserId, CourseId). */
  type EnrollmentKey = (int, int)

  /**
   * One state of the database: a table per DbSet, keyed by primary key, and the
   * next value the identity columns hand out.
   */
  datatype Store = Store(
    users: map<int, User>,
    courses: map<int, Course>,
    enrollments: map<EnrollmentKey, Enrollment>,
    assessments: map<int, Assessment>,
    questions: map<int, Question>,
    options: map<int, Option>,
    answers: map<int, StudentAnswer>,
    nextId: int)

  /** The empty database. */
  function EmptyStore(): Store
  {
    Store(map[], map[], map[], map[], map[], map[], map[], 1)
  }

  /** Identity keys are positive and below the next value to be handed out. */
  ghost predicate IdentityOk(s: Store)
  {
    && 1 <= s.nextId
    && (forall k :: k in s.users ==> 0 < k < s.nextId)
    && (forall k :: k in s.courses ==> 0 < k < s.nextId)
    && (forall k :: k in s.assessments ==> 0 < k < s.nextId)
    && (forall k :: k in s.questions ==> 0 < k < s.nextId)
    && (forall k :: k in s.options ==> 0 < k < s.nextId)
    && (forall k :: k in s.answers ==> 0 < k < s.nextId)
  }

  /** Each enrollment sits under the key made of its own UserId and CourseId. */
  ghost predicate EnrollmentKeysMatch(s: Store)
  {
    forall k :: k in s.enrollments ==> s.enrollments[k].userId == k.0 && s.enrollments[k].courseId == k.1
  }

  /** Every foreign key names an existing row. */
  predicate Consistent(s: Store)
  {
    && (forall k :: k in s.courses ==> s.courses[k].instructorId in s.users)
    && (forall k :: k in s.enrollments ==> s.enrollments[k].userId in s.users && s.enrollments[k].courseId in s.courses)
    && (forall k :: k in s.assessments ==> s.assessments[k].courseId in s.courses)
    && (forall k :: k in s.questions ==> s.questions[k].assessmentId in s.assessments)
    && (forall k :: k in s.options ==> s.options[k].questionId in s.questions)
    && (forall k :: k in s.answers ==> s.answers[k].questionId in s.questions && s.answers[k].userId in s.users)
  }

  /** The invariant every committed database state satisfies. */
  ghost predicate Valid(s: Store)
  {
    IdentityOk(s) && EnrollmentKeysMatch(s) && Consistent(s)
  }

  /** A valid store has at most one enrollment for each (UserId, CourseId) pair. */
  lemma AtMostOneEnrollmentPerPair(s: Store, k1: EnrollmentKey, k2: EnrollmentKey)
    requires EnrollmentKeysMatch(s)
    requires k1 in s.enrollments && k2 in s.enrollments
    requires s.enrollments[k1].userId == s.enrollments[k2].userId
    requires s.enrollments[k1].courseId == s.enrollments[k2].courseId
    ensures k1 == k2
  {
  }

  /** The user a registration creates: a missing Role defaults to "Student". */
  function NewUser(username: string, password: string, email: string, role: Nullable<string>): (u: User)
    ensures u.role == (if role.Some? then role.value else StudentRole)
    ensures u.username == username && u.password == password && u.email == email
  {
    User(username, password, email, match role case Some(r) => r case Null => StudentRole)
  }

  /** The ids of the questions of assessment `a`. */
  function QuestionsOf(s: Store, a: int): set<int>
  {
    set q | q in s.questions && s.questions[q].assessmentId == a
  }

  /** The ids of the options of question `q`. */
  function OptionsOf(s: Store, q: int): set<int>
  {
    set o | o in s.options && s.options[o].questionId == q
  }

  /**
   * The student answers of assessment `a`: the answers to any of its questions
   * (the filter of GetResponses).
   */
  function AnswersOfAssessment(s: Store, a: int): set<int>
  {
    set x | x in s.answers && s.answers[x].questionId in s.questions
                           && s.questions[s.answers[x].questionId].assessmentId == a
  }

  /** The ids of the assessments of course `c`. */
  function AssessmentsOf(s: Store, c: int): set<int>
  {
    set a | a in s.assessments && s.assessments[a].courseId == c
  }

  /** The keys of the enrollments in course `c`. */
  function EnrollmentsOf(s: Store, c: int): set<EnrollmentKey>
  {
    set k | k in s.enrollments && s.enrollments[k].courseId == c
  }

  /**
   * The non-success responses of the controllers: 400, 404, 401, 403 and 500.
   * `Forbidden` is the 403 a refused owner check is meant to answer. The three
   * course actions that refuse a non-owner pass a message to `Forbid`, which
   * answers 500 instead (`ForbidWithMessageFails`).
   */
  datatype Status = BadRequest | NotFound | Unauthorized | Forbidden | ServerError

  /** The authentication schemes Program.cs registers: JWT bearer only. */
  const RegisteredSchemes: set<string> := {"Bearer"}

  /**
   * The HTTP status a ForbidResult answers when it executes. With no scheme
   * named, the default scheme's forbid handler answers 403. Otherwise the
   * schemes are forbidden in turn, and a name with no registered handler
   * throws InvalidOperationException, which the pipeline turns into 500.
   */
  function ForbidResponse(schemes: seq<string>, registered: set<string>): (code: int)
    ensures code == 403 <==> forall i :: 0 <= i < |schemes| ==> schemes[i] in registered
    ensures code == 403 || code == 500
    decreases |schemes|
  {
    if schemes == [] then 403
    else if schemes[0] !in registered then 500
    else
      var rest := ForbidResponse(schemes[1..], registered);
      assert forall i :: 1 <= i < |schemes| ==> schemes[i] == schemes[1..][i - 1];
      rest
  }

  /**
   * As written: `Forbid(message)` takes the message for a scheme name, so each
   * of the three refusals of a non-owner answers 500.
   */
  lemma ForbidWithMessageFails()
    ensures ForbidResponse(["You are not authorized to update this course."], RegisteredSchemes) == 500
    ensures ForbidResponse(["You are not authorized to delete this course."], RegisteredSchemes) == 500
    ensures ForbidResponse(["You are not authorized to view students for this course."], RegisteredSchemes) == 500
  {
    assert |"You are not authorized to update this course."| != |"Bearer"|;
    assert |"You are not authorized to delete this course."| != |"Bearer"|;
    assert |"You are not authorized to view students for this course."| != |"Bearer"|;
  }

  /** As intended: `Forbid()` without arguments answers 403, and so does any list of registered schemes. */
  lemma ForbidWithoutMessageIs403(schemes: seq<string>)
    requires forall i :: 0 <= i < |schemes| ==> schemes[i] in RegisteredSchemes
    ensures ForbidResponse([], RegisteredSchemes) == 403
    ensures ForbidResponse(schemes, RegisteredSchemes) == 403
  {
  }

  /**
   * Models/UserDto.cs: a user as the API shows it, without the password; the
   * enrollment date is filled in only by the enrollment endpoints.
   */
  datatype UserDto = UserDto(id: int, username: string, email: string, role: string, enrollmentDate: Nullable<int>)

  /** The students of a course and their count, as the roster endpoints return them. */
  datatype Roster = Roster(students: set<UserDto>, totalStudents: nat)

  /** The enrollments in course `c` whose user exists and has the role "Student". */
  function StudentEnrollmentsOf(s: Store, c: int): set<EnrollmentKey>
  {
    set k | k in s.enrollments && s.enrollments[k].courseId == c
            && s.enrollments[k].userId in s.users && s.users[s.enrollments[k].userId].role == StudentRole
  }

  /** The DTO of the user of enrollment `k`, with its enrollment date when `dated`. */
  function EnrolledDto(s: Store, k: EnrollmentKey, dated: bool): UserDto
    requires k in s.enrollments && s.enrollments[k].userId in s.users
  {
    var id := s.enrollments[k].userId;
    var u := s.users[id];
    UserDto(id, u.username, u.email, u.role, if dated then Some(s.enrollments[k].enrollmentDate) else Null)
  }

  /** The users of the enrollments `keys`, as DTOs. */
  function StudentsOf(s: Store, keys: set<EnrollmentKey>, dated: bool): set<UserDto>
  {
    set k | k in keys && k in s.enrollments && s.enrollments[k].userId in s.users :: EnrolledDto(s, k, dated)
  }

  /**
   * Different enrollments of one course belong to different users, so the
   * roster has exactly as many entries as there are enrollments.
   */
  lemma {:induction false} RosterSize(s: Store, keys: set<EnrollmentKey>, c: int, dated: bool)
    requires EnrollmentKeysMatch(s)
    requires forall k :: k in keys ==> k in s.enrollments && k.1 == c && k.0 in s.users
    ensures |StudentsOf(s, keys, dated)| == |keys|
    decreases |keys|
  {
    if keys != {} {
      var k :| k in keys;
      var rest := keys - {k};
      RosterSize(s, rest, c, dated);
      var d := EnrolledDto(s, k, dated);
      assert StudentsOf(s, keys, dated) == StudentsOf(s, rest, dated) + {d};
      assert d !in StudentsOf(s, rest, dated);
    }
  }

  /** Some element of a non-empty set of ids, the next one a `foreach` visits. */
  method Pick<T>(ids: set<T>) returns (x: T)
    requires ids != {}
    ensures x in ids
  {
    x :| x in ids;
  }
}
