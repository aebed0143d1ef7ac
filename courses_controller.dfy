/**
 * Controllers/CoursesController.cs: the upload rule of SaveFile, course creation
 * and update, the ordered removal of a course's whole graph, and the roster of
 * a course's students.
 */
module CoursesController {
  import opened Models
  import opened Data

  // ----- SaveFile: the extension and size rule -----

  /** An uploaded form file: its client-side name and its length in bytes. */
  datatype Upload = Upload(fileName: string, length: nat)

  /** Why SaveFile throws ArgumentException. */
  datatype FileRejection = TypeNotAllowed(extension: string, folder: string) | TooLarge(folder: string, maxBytes: nat)

  const MiB: nat := 1024 * 1024

  /** The allow-list of each upload folder; any other folder has none. */
  function AllowedExtensions(folder: string): (r: seq<string>)
    ensures forall e :: e in r ==> WellFormedExtension(e) && ToLower(e) == e
    ensures folder != "videos" && folder != "thumbnails" && folder != "pdfs" ==> r == []
  {
    if folder == "videos" then [".mp4", ".avi", ".mov", ".wmv", ".flv", ".webm"]
    else if folder == "thumbnails" then [".jpg", ".jpeg", ".png", ".gif", ".webp"]
    else if folder == "pdfs" then [".pdf"]
    else []
  }

  /** The size limit of each upload folder, 50 MiB by default. */
  function MaxSize(folder: string): (n: nat)
    ensures 10 * MiB <= n <= 500 * MiB
  {
    if folder == "videos" then 500 * MiB
    else if folder == "thumbnails" then 10 * MiB
    else if folder == "pdfs" then 100 * MiB
    else 50 * MiB
  }

  predicate IsSeparator(c: char)
  {
    c == '/' || c == '\\'
  }

  /** An extension as Path.GetExtension returns one: a dot, then at least one character, none a dot or a separator. */
  predicate WellFormedExtension(e: string)
  {
    2 <= |e| && e[0] == '.' && forall k :: 1 <= k < |e| ==> e[k] != '.' && !IsSeparator(e[k])
  }

  /**
   * Path.GetExtension on `name[..i]`, scanning backwards, when `name[i..]`
   * holds no dot and no separator.
   */
  function ScanExtension(name: string, i: nat): (e: string)
    requires i <= |name|
    requires forall k :: i <= k < |name| ==> name[k] != '.' && !IsSeparator(name[k])
    ensures e == "" || (WellFormedExtension(e) && |e| <= |name| && e == name[|name| - |e|..])
    ensures e == "" ==>
      (0 < |name| && name[|name| - 1] == '.')
      || forall k :: 0 <= k < i && name[k] == '.' ==> exists j :: k < j < i && IsSeparator(name[j])
    decreases i
  {
    if i == 0 then ""
    else if name[i - 1] == '.' then (if i == |name| then "" else name[i - 1..])
    else if IsSeparator(name[i - 1]) then ""
    else ScanExtension(name, i - 1)
  }

  /**
   * Path.GetExtension: the text from the last dot of the file name, or "" when
   * the name has no dot after its last separator or ends with the dot.
   */
  function GetExtension(name: string): (e: string)
    ensures e == "" || (WellFormedExtension(e) && |e| <= |name| && e == name[|name| - |e|..])
    ensures e == "" ==>
      (0 < |name| && name[|name| - 1] == '.')
      || forall k :: 0 <= k < |name| && name[k] == '.' ==> exists j :: k < j < |name| && IsSeparator(name[j])
  {
    ScanExtension(name, |name|)
  }

  function LowerChar(c: char): char
  {
    if 'A' <= c <= 'Z' then (c as int + 32) as char else c
  }

  /** ToLowerInvariant on the ASCII letters. */
  function ToLower(s: string): (r: string)
    ensures |r| == |s| && forall k :: 0 <= k < |s| ==> r[k] == LowerChar(s[k])
  {
    seq(|s|, k requires 0 <= k < |s| => LowerChar(s[k]))
  }

  /** The extension SaveFile checks: GetExtension, lower-cased. */
  function FileExtension(name: string): string
  {
    ToLower(GetExtension(name))
  }

  /**
   * SaveFile's decision. A missing or empty file yields no URL; otherwise the
   * lower-cased extension must be on the folder's allow-list and the length
   * within its limit, and the file is stored under the opaque `stem` (the
   * GUID and tick count the source draws) followed by that extension.
   */
  function SaveFile(file: Nullable<Upload>, folder: string, stem: string): (r: Result<Nullable<string>, FileRejection>)
    ensures r == Ok(Null) <==> file.Null? || file.value.length == 0
    ensures r.Ok? && r.value.Some? ==>
      FileExtension(file.value.fileName) in AllowedExtensions(folder) && file.value.length <= MaxSize(folder)
    ensures r.Err? && r.error.TypeNotAllowed? ==> FileExtension(file.value.fileName) !in AllowedExtensions(folder)
    ensures r.Err? && r.error.TooLarge? ==> file.value.length > MaxSize(folder)
  {
    if file.Null? || file.value.length == 0 then Ok(Null)
    else
      var ext := FileExtension(file.value.fileName);
      if ext !in AllowedExtensions(folder) then Err(TypeNotAllowed(ext, folder))
      else if file.value.length > MaxSize(folder) then Err(TooLarge(folder, MaxSize(folder)))
      else Ok(Some("/uploads/" + folder + "/" + stem + ext))
  }

  /** SaveFile accepts a present, non-empty file exactly when its extension is allowed and its size within the limit. */
  lemma SaveFileRule(file: Nullable<Upload>, folder: string, stem: string)
    ensures SaveFile(file, folder, stem) == Ok(Null) <==> file.Null? || file.value.length == 0
    ensures SaveFile(file, folder, stem).Ok? <==>
      || file.Null? || file.value.length == 0
      || (FileExtension(file.value.fileName) in AllowedExtensions(folder) && file.value.length <= MaxSize(folder))
  {
  }

  /** A folder other than videos, thumbnails and pdfs rejects every non-empty file. */
  lemma UnknownFolderRejects(file: Upload, folder: string, stem: string)
    requires folder != "videos" && folder != "thumbnails" && folder != "pdfs"
    requires file.length > 0
    ensures SaveFile(Some(file), folder, stem) == Err(TypeNotAllowed(FileExtension(file.fileName), folder))
  {
  }

  lemma {:induction false} ScanFindsExtension(prefix: string, ext: string, i: nat)
    requires WellFormedExtension(ext)
    requires |prefix| < i <= |prefix + ext|
    ensures forall k :: i <= k < |prefix + ext| ==> (prefix + ext)[k] != '.' && !IsSeparator((prefix + ext)[k])
    ensures ScanExtension(prefix + ext, i) == ext
    decreases i
  {
    var name := prefix + ext;
    assert forall k :: |prefix| < k < |name| ==> name[k] == ext[k - |prefix|];
    if i - 1 != |prefix| {
      ScanFindsExtension(prefix, ext, i - 1);
    } else {
      assert name[i - 1..] == ext;
    }
  }

  /** The extension of a name ending in a well-formed extension is that extension, whatever comes before it. */
  lemma ExtensionOfSuffix(prefix: string, ext: string)
    requires WellFormedExtension(ext)
    ensures GetExtension(prefix + ext) == ext
  {
    ScanFindsExtension(prefix, ext, |prefix + ext|);
  }

  /** What an accepted non-empty file yields: its URL, having passed both checks. */
  lemma SaveFileAccepted(file: Upload, folder: string, stem: string)
    requires SaveFile(Some(file), folder, stem).Ok? && file.length > 0
    ensures FileExtension(file.fileName) in AllowedExtensions(folder)
    ensures file.length <= MaxSize(folder)
    ensures SaveFile(Some(file), folder, stem) == Ok(Some("/uploads/" + folder + "/" + stem + FileExtension(file.fileName)))
  {
  }

  /** A name built as directory, stem and a well-formed extension keeps the directory and the extension. */
  lemma StoredUrl(dir: string, stem: string, ext: string)
    requires WellFormedExtension(ext)
    ensures (dir + stem + ext)[..|dir|] == dir
    ensures GetExtension(dir + stem + ext) == ext
  {
    ExtensionOfSuffix(dir + stem, ext);
    assert (dir + stem + ext)[..|dir|] == dir;
  }

  /**
   * A stored file lives under /uploads/<folder>/, its extension is on the
   * folder's allow-list, and the URL carries that extension again.
   */
  lemma SaveFileStores(file: Upload, folder: string, stem: string)
    requires SaveFile(Some(file), folder, stem).Ok? && file.length > 0
    ensures var url := SaveFile(Some(file), folder, stem).value;
      && url.Some?
      && url.value[..|"/uploads/" + folder + "/"|] == "/uploads/" + folder + "/"
      && FileExtension(file.fileName) in AllowedExtensions(folder)
      && file.length <= MaxSize(folder)
      && GetExtension(url.value) == FileExtension(file.fileName)
  {
    var ext := FileExtension(file.fileName);
    SaveFileAccepted(file, folder, stem);
    StoredUrl("/uploads/" + folder + "/", stem, ext);
  }

  // ----- CreateCourse and UpdateCourse -----

  /**
   * The Courses columns are nvarchar(100) for the title, nvarchar(500) for the
   * description and nvarchar(1024) for each media URL. SQL Server refuses a
   * longer value when the save runs; the save throws and the action answers 500.
   */
  const TitleColumn: nat := 100
  const DescriptionColumn: nat := 500
  const UrlColumn: nat := 1024

  /** A media URL that fits its column; a missing URL is NULL. */
  predicate UrlFits(u: Nullable<string>)
  {
    u.Null? || Utf16Length(u.value) <= UrlColumn
  }

  /** A course the database accepts on insert, which writes every column. */
  predicate FitsColumns(c: Course)
  {
    && Utf16Length(c.title) <= TitleColumn && Utf16Length(c.description) <= DescriptionColumn
    && UrlFits(c.videoUrl) && UrlFits(c.thumbnailUrl) && UrlFits(c.modulePdfUrl)
  }

  /** An update of `was` to `c` the database accepts: EF Core writes only the columns whose value changed. */
  predicate ChangesFit(was: Course, c: Course)
  {
    && (c.title == was.title || Utf16Length(c.title) <= TitleColumn)
    && (c.description == was.description || Utf16Length(c.description) <= DescriptionColumn)
    && (c.videoUrl == was.videoUrl || UrlFits(c.videoUrl))
    && (c.thumbnailUrl == was.thumbnailUrl || UrlFits(c.thumbnailUrl))
    && (c.modulePdfUrl == was.modulePdfUrl || UrlFits(c.modulePdfUrl))
  }

  /** A stored course that fits its columns still fits after an update the database accepts. */
  lemma ChangesFitKeepsFit(was: Course, c: Course)
    requires FitsColumns(was) && ChangesFit(was, c)
    ensures FitsColumns(c)
  {
  }

  /** The first file SaveFile rejects, in the order video, thumbnail, module PDF. */
  function Uploads(video: Nullable<Upload>, thumbnail: Nullable<Upload>, pdf: Nullable<Upload>, stems: (string, string, string))
    : Result<(Nullable<string>, Nullable<string>, Nullable<string>), FileRejection>
  {
    var v := SaveFile(video, "videos", stems.0);
    var t := SaveFile(thumbnail, "thumbnails", stems.1);
    var p := SaveFile(pdf, "pdfs", stems.2);
    if v.Err? then Err(v.error)
    else if t.Err? then Err(t.error)
    else if p.Err? then Err(p.error)
    else Ok((v.value, t.value, p.value))
  }

  /**
   * CreateCourse: the caller's id from the token becomes the instructor. A
   * missing id is Unauthorized, a blank title or description and a rejected
   * file are BadRequest, and an instructor the database does not know or a
   * value longer than its column makes the save fail (500). On success the
   * new course's id is returned.
   */
  method CreateCourse(db: EduSyncContext, caller: Nullable<int>, title: string, description: string,
                      video: Nullable<Upload>, thumbnail: Nullable<Upload>, pdf: Nullable<Upload>,
                      stems: (string, string, string))
    returns (r: Result<int, Status>)
    requires db.Valid()
    modifies db
    ensures db.Valid()
    ensures caller.Null? ==> r == Err(Unauthorized)
    ensures caller.Some? && (IsBlankNet(title) || IsBlankNet(description)) ==> r == Err(BadRequest)
    ensures caller.Some? && !IsBlankNet(title) && !IsBlankNet(description) ==>
      (Uploads(video, thumbnail, pdf, stems).Err? ==> r == Err(BadRequest))
      && (Uploads(video, thumbnail, pdf, stems).Ok? ==>
            var urls := Uploads(video, thumbnail, pdf, stems).value;
            var c := Course(title, description, caller.value, urls.0, urls.1, urls.2);
            r == (if caller.value in old(db.users) && FitsColumns(c) then Ok(old(db.nextId)) else Err(ServerError)))
    ensures r.Err? ==> db.State() == old(db.State())
    ensures r.Ok? ==>
      var urls := Uploads(video, thumbnail, pdf, stems).value;
      && r.value !in old(db.courses)
      && db.State() == old(db.State()).(
           courses := old(db.courses)[r.value := Course(title, description, caller.value, urls.0, urls.1, urls.2)],
           nextId := r.value + 1)
  {
    if caller.Null? {
      return Err(Unauthorized);
    }
    if IsBlankNet(title) || IsBlankNet(description) {
      return Err(BadRequest);
    }
    var uploads := Uploads(video, thumbnail, pdf, stems);
    if uploads.Err? {
      return Err(BadRequest);
    }
    var s := db.State();
    var id := s.nextId;
    var course := Course(title, description, caller.value, uploads.value.0, uploads.value.1, uploads.value.2);
    if !FitsColumns(course) {
      return Err(ServerError);
    }
    AddCourseChecked(s, id, course);
    var saved := db.SaveChanges(s.(courses := s.courses[id := course], nextId := id + 1));
    if !saved {
      return Err(ServerError);
    }
    r := Ok(id);
  }

  /** The URL a media slot holds after an update: replaced by SaveFile when a file is sent, kept otherwise. */
  function Replace(current: Nullable<string>, file: Nullable<Upload>, folder: string, stem: string)
    : (r: Result<Nullable<string>, FileRejection>)
    ensures file.Null? ==> r == Ok(current)
    ensures file.Some? && file.value.length == 0 ==> r == Ok(Null)
    ensures r.Ok? && r.value != current ==> file.Some?
    ensures r.Err? ==> file.Some? && file.value.length > 0
  {
    if file.Null? then Ok(current) else SaveFile(file, folder, stem)
  }

  /**
   * UpdateCourse: Unauthorized without a caller id, NotFound for an unknown
   * course, Forbidden for a caller who is not its instructor, BadRequest for a
   * blank title or description or a rejected file. Otherwise each slot with a
   * new file is replaced (an empty file clears it), the others keep their URL,
   * and title and description are overwritten; the save fails (500) only when
   * a changed value is longer than its column.
   */
  method UpdateCourse(db: EduSyncContext, caller: Nullable<int>, id: int, title: string, description: string,
                      video: Nullable<Upload>, thumbnail: Nullable<Upload>, pdf: Nullable<Upload>,
                      stems: (string, string, string))
    returns (r: Result<Course, Status>)
    requires db.Valid()
    modifies db
    ensures db.Valid()
    ensures caller.Null? ==> r == Err(Unauthorized)
    ensures caller.Some? && id !in old(db.courses) ==> r == Err(NotFound)
    ensures caller.Some? && id in old(db.courses) && old(db.courses)[id].instructorId != caller.value ==> r == Err(Forbidden)
    ensures (caller.Some? && id in old(db.courses) && old(db.courses)[id].instructorId == caller.value
             && (IsBlankNet(title) || IsBlankNet(description))) ==> r == Err(BadRequest)
    ensures caller.Some? && id in old(db.courses) && old(db.courses)[id].instructorId == caller.value
            && !IsBlankNet(title) && !IsBlankNet(description) ==>
      var was := old(db.courses)[id];
      var v := Replace(was.videoUrl, video, "videos", stems.0);
      var t := Replace(was.thumbnailUrl, thumbnail, "thumbnails", stems.1);
      var p := Replace(was.modulePdfUrl, pdf, "pdfs", stems.2);
      && (v.Err? || t.Err? || p.Err? ==> r == Err(BadRequest))
      && (v.Ok? && t.Ok? && p.Ok? ==>
            var c := Course(title, description, was.instructorId, v.value, t.value, p.value);
            r == if ChangesFit(was, c) then Ok(c) else Err(ServerError))
    ensures r.Err? ==> db.State() == old(db.State())
    ensures r.Ok? ==>
      var was := old(db.courses)[id];
      && caller.Some? && id in old(db.courses) && was.instructorId == caller.value
      && r.value.title == title && r.value.description == description
      && r.value.instructorId == was.instructorId
      && Replace(was.videoUrl, video, "videos", stems.0) == Ok(r.value.videoUrl)
      && Replace(was.thumbnailUrl, thumbnail, "thumbnails", stems.1) == Ok(r.value.thumbnailUrl)
      && Replace(was.modulePdfUrl, pdf, "pdfs", stems.2) == Ok(r.value.modulePdfUrl)
      && db.State() == old(db.State()).(courses := old(db.courses)[id := r.value])
  {
    if caller.Null? {
      return Err(Unauthorized);
    }
    var s := db.State();
    if id !in s.courses {
      return Err(NotFound);
    }
    var course := s.courses[id];
    if course.instructorId != caller.value {
      return Err(Forbidden);
    }
    if IsBlankNet(title) || IsBlankNet(description) {
      return Err(BadRequest);
    }
    if video.Some? {
      var url := SaveFile(video, "videos", stems.0);
      if url.Err? {
        return Err(BadRequest);
      }
      course := course.(videoUrl := url.value);
    }
    if thumbnail.Some? {
      var url := SaveFile(thumbnail, "thumbnails", stems.1);
      if url.Err? {
        return Err(BadRequest);
      }
      course := course.(thumbnailUrl := url.value);
    }
    if pdf.Some? {
      var url := SaveFile(pdf, "pdfs", stems.2);
      if url.Err? {
        return Err(BadRequest);
      }
      course := course.(modulePdfUrl := url.value);
    }
    course := course.(title := title, description := description);
    if !ChangesFit(s.courses[id], course) {
      return Err(ServerError);
    }
    ReplaceCourseKeepsValid(s, id, course);
    var saved := db.SaveChanges(s.(courses := s.courses[id := course]));
    assert saved;
    r := Ok(course);
  }

  /** An update leaves a media slot without a new file as it was. */
  lemma UpdateKeepsUnsentMedia(current: Nullable<string>, folder: string, stem: string)
    ensures Replace(current, Null, folder, stem) == Ok(current)
  {
  }

  // ----- DeleteCourse -----

  /** The ids of the questions of the assessments `ids`. */
  function QuestionIdsOf(s: Store, ids: set<int>): set<int>
  {
    set q | q in s.questions && s.questions[q].assessmentId in ids
  }

  /** The rows of the questions `qs` and of their options. */
  function QuestionParts(s: Store, qs: set<int>): set<Row>
  {
    (set q | q in qs :: QuestionRow(q))
    + (set o | o in s.options && s.options[o].questionId in qs :: OptionRow(o))
  }

  /** The student answers, questions and options of the assessments `ids`. */
  function Contents(s: Store, ids: set<int>): set<Row>
  {
    QuestionParts(s, QuestionIdsOf(s, ids))
    + (set x | x in s.answers && s.answers[x].questionId in QuestionIdsOf(s, ids) :: AnswerRow(x))
  }

  /** Membership in the graph DeleteCourse loads for course `c`. */
  predicate InCourseGraph(s: Store, c: int, row: Row)
  {
    match row
    case UserRow(_) => false
    case CourseRow(k) => k == c
    case EnrollmentRow(k) => k in s.enrollments && s.enrollments[k].courseId == c
    case AssessmentRow(a) => a in s.assessments && s.assessments[a].courseId == c
    case QuestionRow(q) => q in s.questions && s.questions[q].assessmentId in AssessmentsOf(s, c)
    case OptionRow(o) =>
      o in s.options && s.options[o].questionId in s.questions
      && s.questions[s.options[o].questionId].assessmentId in AssessmentsOf(s, c)
    case AnswerRow(x) =>
      x in s.answers && s.answers[x].questionId in s.questions
      && s.questions[s.answers[x].questionId].assessmentId in AssessmentsOf(s, c)
  }

  /**
   * The rows DeleteCourse removes: the course, its enrollments, its
   * assessments and, for each, the student answers, the questions and their
   * options.
   */
  function CourseGraph(s: Store, c: int): (g: set<Row>)
    ensures forall row :: row in g <==> InCourseGraph(s, c, row)
  {
    (set k | k in s.enrollments && s.enrollments[k].courseId == c :: EnrollmentRow(k))
    + Contents(s, AssessmentsOf(s, c))
    + (set a | a in AssessmentsOf(s, c) :: AssessmentRow(a))
    + {CourseRow(c)}
  }

  /** The rows of the options of question `q`. */
  function OptionRows(s: Store, q: int): set<Row>
  {
    set o | o in OptionsOf(s, q) :: OptionRow(o)
  }

  /** The rows of the student answers of assessment `a`. */
  function AnswerRows(s: Store, a: int): set<Row>
  {
    set x | x in AnswersOfAssessment(s, a) :: AnswerRow(x)
  }

  lemma QuestionPartsStep(s: Store, marked: set<Row>, qs: set<int>, q: int)
    ensures marked + QuestionParts(s, qs) + OptionRows(s, q) + {QuestionRow(q)} == marked + QuestionParts(s, qs + {q})
  {
    assert QuestionParts(s, qs + {q}) == QuestionParts(s, qs) + OptionRows(s, q) + {QuestionRow(q)};
  }

  lemma ContentsStep(s: Store, marked: set<Row>, ids: set<int>, a: int)
    ensures marked + Contents(s, ids) + AnswerRows(s, a) + QuestionParts(s, QuestionsOf(s, a)) == marked + Contents(s, ids + {a})
  {
    assert QuestionIdsOf(s, ids + {a}) == QuestionIdsOf(s, ids) + QuestionsOf(s, a);
    assert Contents(s, ids + {a}) == Contents(s, ids) + AnswerRows(s, a) + QuestionParts(s, QuestionsOf(s, a));
  }

  lemma NothingMarkedYet(s: Store, marked: set<Row>)
    ensures marked + QuestionParts(s, {}) == marked
    ensures marked + Contents(s, {}) == marked
  {
    assert QuestionParts(s, {}) == {};
    assert QuestionIdsOf(s, {}) == {};
    assert Contents(s, {}) == {};
  }

  /** The inner loop of DeleteCourse: each question's options, then the question. */
  method MarkQuestions(s: Store, a: int, marked: set<Row>) returns (result: set<Row>)
    ensures result == marked + QuestionParts(s, QuestionsOf(s, a))
  {
    result := marked;
    var questions := QuestionsOf(s, a);
    ghost var finished: set<int> := {};
    NothingMarkedYet(s, marked);
    while questions != {}
      invariant questions + finished == QuestionsOf(s, a)
      invariant result == marked + QuestionParts(s, finished)
      decreases |questions|
    {
      var q := Pick(questions);
      result := result + OptionRows(s, q) + {QuestionRow(q)};
      QuestionPartsStep(s, marked, finished, q);
      questions, finished := questions - {q}, finished + {q};
    }
  }

  /** The outer loop of DeleteCourse: each assessment's student answers, then its questions. */
  method MarkAssessments(s: Store, assessments: set<int>, marked: set<Row>) returns (result: set<Row>)
    ensures result == marked + Contents(s, assessments)
  {
    result := marked;
    var todo := assessments;
    ghost var done: set<int> := {};
    NothingMarkedYet(s, marked);
    while todo != {}
      invariant todo + done == assessments
      invariant result == marked + Contents(s, done)
      decreases |todo|
    {
      var a := Pick(todo);
      result := result + AnswerRows(s, a);
      result := MarkQuestions(s, a, result);
      ContentsStep(s, marked, done, a);
      todo, done := todo - {a}, done + {a};
    }
  }

  /** Every row that references a row of the course's graph is in the graph too. */
  lemma CourseGraphDownwardClosed(s: Store, c: int)
    ensures DownwardClosed(s, CourseGraph(s, c))
  {
    var g := CourseGraph(s, c);
    forall d, r, p | RefersTo(s, d, r, p) && p in g ensures d in g {
      match r
      case EnrollmentCourse =>
      case AssessmentCourse =>
      case QuestionAssessment =>
      case OptionQuestion =>
      case AnswerQuestion =>
      case EnrollmentUser =>
      case CourseInstructor =>
      case AnswerUser =>
    }
  }

  /** Removing a course's graph never leaves a dangling foreign key, so its one save succeeds. */
  lemma CourseGraphRemovalKeepsValid(s: Store, c: int)
    requires Valid(s)
    ensures Consistent(RemoveRows(s, CourseGraph(s, c)))
    ensures Valid(RemoveRows(s, CourseGraph(s, c)))
  {
    CourseGraphDownwardClosed(s, c);
    RemoveClosedKeepsValid(s, CourseGraph(s, c));
  }

  /** After the removal nothing of the course's graph is left. */
  lemma CourseGraphGone(s: Store, c: int)
    ensures var t := RemoveRows(s, CourseGraph(s, c));
      && c !in t.courses
      && (forall k :: k in t.enrollments ==> t.enrollments[k].courseId != c)
      && (forall a :: a in t.assessments ==> t.assessments[a].courseId != c)
      && (forall q :: q in t.questions ==> t.questions[q].assessmentId !in AssessmentsOf(s, c))
      && (forall o :: o in t.options ==> t.options[o].questionId !in QuestionIdsOf(s, AssessmentsOf(s, c)))
      && (forall x :: x in t.answers ==> t.answers[x].questionId !in QuestionIdsOf(s, AssessmentsOf(s, c)))
  {
    var g := CourseGraph(s, c);
    var t := RemoveRows(s, g);
    forall o | o in t.options ensures t.options[o].questionId !in QuestionIdsOf(s, AssessmentsOf(s, c)) {
      assert OptionRow(o) !in g;
    }
    forall x | x in t.answers ensures t.answers[x].questionId !in QuestionIdsOf(s, AssessmentsOf(s, c)) {
      assert AnswerRow(x) !in g;
    }
  }

  lemma OtherCourseRowsSurvive(s: Store, c: int, other: int, row: Row)
    requires Valid(s) && other != c && InCourseGraph(s, other, row)
    ensures row !in CourseGraph(s, c)
  {
  }

  lemma OtherAssessmentsSurvive(s: Store, c: int, other: int)
    requires Valid(s) && other != c
    ensures AssessmentsOf(RemoveRows(s, CourseGraph(s, c)), other) == AssessmentsOf(s, other)
  {
    var g := CourseGraph(s, c);
    forall a | a in AssessmentsOf(s, other) ensures AssessmentRow(a) !in g {
      OtherCourseRowsSurvive(s, c, other, AssessmentRow(a));
    }
  }

  /** A graph row survives a removal that spares it and the question it hangs on. */
  lemma GraphRowKept(s: Store, gone: set<Row>, other: int, row: Row, parent: Row)
    requires InCourseGraph(s, other, row) && row !in gone && parent !in gone
    requires row.OptionRow? ==> parent == QuestionRow(s.options[row.id].questionId)
    requires row.AnswerRow? ==> parent == QuestionRow(s.answers[row.id].questionId)
    requires AssessmentsOf(RemoveRows(s, gone), other) == AssessmentsOf(s, other)
    ensures InCourseGraph(RemoveRows(s, gone), other, row)
  {
    var t := RemoveRows(s, gone);
    match row
    case QuestionRow(q) =>
      assert q in t.questions;
    case OptionRow(o) =>
      assert o in t.options && parent.id in t.questions;
    case AnswerRow(x) =>
      assert x in t.answers && parent.id in t.questions;
    case _ =>
  }

  /** A row of another course's graph is still there after the removal, and still in that graph. */
  lemma OtherGraphRowKept(s: Store, c: int, other: int, row: Row)
    requires Valid(s) && other != c && InCourseGraph(s, other, row)
    requires AssessmentsOf(RemoveRows(s, CourseGraph(s, c)), other) == AssessmentsOf(s, other)
    ensures InCourseGraph(RemoveRows(s, CourseGraph(s, c)), other, row)
  {
    OtherCourseRowsSurvive(s, c, other, row);
    var parent := row;
    if row.OptionRow? {
      parent := QuestionRow(s.options[row.id].questionId);
    } else if row.AnswerRow? {
      parent := QuestionRow(s.answers[row.id].questionId);
    }
    OtherCourseRowsSurvive(s, c, other, parent);
    GraphRowKept(s, CourseGraph(s, c), other, row, parent);
  }

  /** The removal adds nothing to another course's graph. */
  lemma OtherGraphRowFrom(s: Store, c: int, other: int, row: Row)
    requires AssessmentsOf(RemoveRows(s, CourseGraph(s, c)), other) == AssessmentsOf(s, other)
    requires InCourseGraph(RemoveRows(s, CourseGraph(s, c)), other, row)
    ensures InCourseGraph(s, other, row)
  {
  }

  lemma OtherGraphRowSurvives(s: Store, c: int, other: int, row: Row)
    requires Valid(s) && other != c
    ensures InCourseGraph(RemoveRows(s, CourseGraph(s, c)), other, row) <==> InCourseGraph(s, other, row)
  {
    OtherAssessmentsSurvive(s, c, other);
    if InCourseGraph(s, other, row) {
      OtherGraphRowKept(s, c, other, row);
    }
    if InCourseGraph(RemoveRows(s, CourseGraph(s, c)), other, row) {
      OtherGraphRowFrom(s, c, other, row);
    }
  }

  /** Deleting one course leaves every user and the whole graph of every other course exactly as it was. */
  lemma CourseGraphRemovalIsolated(s: Store, c: int, other: int)
    requires Valid(s) && other != c
    ensures var t := RemoveRows(s, CourseGraph(s, c));
      && t.users == s.users
      && (other in s.courses ==> other in t.courses && t.courses[other] == s.courses[other])
      && CourseGraph(t, other) == CourseGraph(s, other)
  {
    var t := RemoveRows(s, CourseGraph(s, c));
    assert t.users == s.users;
    forall row ensures row in CourseGraph(t, other) <==> row in CourseGraph(s, other) {
      OtherGraphRowSurvives(s, c, other, row);
    }
  }

  /**
   * DeleteCourse: Unauthorized without a caller id; NotFound for an unknown
   * course, checked before ownership; Forbidden for a caller who is not the
   * instructor, leaving the database as it was. Otherwise the rows of the
   * course's graph are marked in the order enrollments, then per assessment
   * its answers and per question its options and the question, then the
   * assessments and the course, and one SaveChanges commits them all.
   */
  method DeleteCourse(db: EduSyncContext, caller: Nullable<int>, id: int) returns (r: Result<(), Status>)
    requires db.Valid()
    modifies db
    ensures db.Valid()
    ensures caller.Null? ==> r == Err(Unauthorized)
    ensures caller.Some? && id !in old(db.courses) ==> r == Err(NotFound)
    ensures caller.Some? && id in old(db.courses) && old(db.courses)[id].instructorId != caller.value ==> r == Err(Forbidden)
    ensures caller.Some? && id in old(db.courses) && old(db.courses)[id].instructorId == caller.value ==> r == Ok(())
    ensures r.Err? ==> db.State() == old(db.State())
    ensures r.Ok? ==> db.State() == RemoveRows(old(db.State()), CourseGraph(old(db.State()), id))
  {
    if caller.Null? {
      return Err(Unauthorized);
    }
    var s := db.State();
    if id !in s.courses {
      return Err(NotFound);
    }
    if s.courses[id].instructorId != caller.value {
      return Err(Forbidden);
    }
    var assessments := AssessmentsOf(s, id);
    var marked := set k | k in s.enrollments && s.enrollments[k].courseId == id :: EnrollmentRow(k);
    marked := MarkAssessments(s, assessments, marked);
    marked := marked + (set a | a in assessments :: AssessmentRow(a)) + {CourseRow(id)};
    CourseGraphRemovalKeepsValid(s, id);
    var saved := db.SaveChanges(RemoveRows(s, marked));
    assert saved;
    r := Ok(());
  }

  // ----- GetStudentsEnrolledInCourse -----

  /**
   * GetStudentsEnrolledInCourse: Unauthorized without a caller id, NotFound
   * for an unknown course, Forbidden for a caller who is not its instructor;
   * otherwise the enrolled users whose role is "Student".
   */
  function GetStudentsEnrolledInCourse(s: Store, caller: Nullable<int>, c: int): (r: Result<Roster, Status>)
    requires EnrollmentKeysMatch(s)
    ensures caller.Null? ==> r == Err(Unauthorized)
    ensures caller.Some? && c !in s.courses ==> r == Err(NotFound)
    ensures caller.Some? && c in s.courses && s.courses[c].instructorId != caller.value ==> r == Err(Forbidden)
    ensures caller.Some? && c in s.courses && s.courses[c].instructorId == caller.value ==> r.Ok?
    ensures r.Ok? ==> r.value.totalStudents == |r.value.students|
    ensures r.Ok? ==> forall d :: d in r.value.students <==>
      (exists k :: k in s.enrollments && s.enrollments[k].courseId == c && k.0 in s.users && s.users[k.0].role == StudentRole
                   && d == UserDto(k.0, s.users[k.0].username, s.users[k.0].email, s.users[k.0].role, Null))
  {
    if caller.Null? then Err(Unauthorized)
    else if c !in s.courses then Err(NotFound)
    else if s.courses[c].instructorId != caller.value then Err(Forbidden)
    else
      var keys := StudentEnrollmentsOf(s, c);
      RosterSize(s, keys, c, false);
      Ok(Roster(StudentsOf(s, keys, false), |keys|))
  }
}
