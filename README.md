# EduSync core in Dafny

EduSync is an education platform. An ASP.NET Core backend keeps users, courses,
enrollments, assessments, questions, options and student answers in a
relational database through Entity Framework Core. A React frontend lets
educators edit questions and students enroll and take assessments. This project
models the parts of it that carry rules:

- the delete behaviour of every foreign key (`Data/EduSyncContext.cs`) and the
  database's delete under it (`data.dfy`);
- the controllers for courses, assessments and questions, enrollments and
  users: their guards, their error responses and the database state they
  leave. The option reconciliation of `UpdateQuestion` and the ordered removal
  of `DeleteCourse` are modelled as loops;
- three React components: the question editor (`question_manager.dfy`), the
  student dashboard (`student_dashboard.dfy`) and the answer sheet
  (`student_assessment.dfy`).

The database is a value `Models.Store` with one map per table and one identity
counter. `Data.EduSyncContext` is a class that holds the committed tables as
fields. A controller method stages its changes on a copy of the state, which
plays EF's change tracker, and commits them with one `SaveChanges`. That call
accepts the staged state exactly when every foreign key resolves; otherwise it
rolls back. A save is therefore all or nothing by construction. Every
controller method keeps `db.Valid()`: identity keys are in range, each
enrollment sits under its own (UserId, CourseId) key, and every foreign key
resolves.

Clocks are integer parameters. So are the caller id taken from the JWT and the
GUID-based file names (`stem`). `Models.Pick` chooses an element of a set in
some order, as a `foreach` over an unordered query does.

Where the record definitions and the controllers disagree, the model follows
the controllers:

- `Models/CourseDto.cs` lacks four fields that `GetEnrolledCourses` projects:
  the instructor's username, the enrollment date, `VideoUrl` and
  `ThumbnailUrl`. `EnrollmentsController.CourseView` follows the projection in
  `Controllers/EnrollmentsController.cs`.

The entities `Question`, `Option` and `StudentAnswer` are the classes of the
same names in `Models/Assessment.cs`.

Blank text is judged two ways. The backend's `string.IsNullOrWhiteSpace` and
`[Required]` use .NET whitespace (`Models.IsSpaceNet`); the frontend's `trim`
uses JavaScript whitespace (`Models.IsSpaceJs`). The two sets differ in U+0085,
which only .NET counts, and U+FEFF, which only JavaScript strips. The length
limits of `[MaxLength]` and `[StringLength]` count UTF-16 code units
(`Models.Utf16Length`).

The controllers' `Forbidden` outcome is the 403 an owner check is meant to
answer. The three course actions that refuse a non-owner call `Forbid` with a
message, which answers 500 instead; see "## Findings". The Courses columns
hold at most 100 (title), 500 (description) and 1024 (each URL) UTF-16 units.
A longer value makes the save throw, and the course actions then answer 500.

## Model

| member | source | states |
|---|---|---|
| Models.SpaceNetVersusJs | Controllers/AssessmentsController.cs:235 | .NET and JavaScript whitespace differ exactly in U+0085, .NET-only, and U+FEFF, JavaScript-only |
| Models.Utf16Length | Models/CreateAssessmentDto.cs:11 | the UTF-16 length lies between the number of characters and twice that, and equals it iff no character is beyond U+FFFF |
| Models.ForbidResponse | Controllers/CoursesController.cs:295 | a ForbidResult answers 403 iff every scheme it names has a registered handler, and 500 otherwise |
| Models.ForbidWithMessageFails | Controllers/CoursesController.cs:295 | each of the three `Forbid(message)` calls of the course actions answers 500, since only "Bearer" is registered |
| Models.ForbidWithoutMessageIs403 | Controllers/CoursesController.cs:295 | `Forbid()` without arguments, or with registered schemes only, answers 403 |
| Models.NewUser | Models/User.cs:17 | a registered user keeps the given name, password and email; the role is "Student" when none is given |
| Models.AtMostOneEnrollmentPerPair | Data/EduSyncContext.cs:27 | with enrollments keyed by (UserId, CourseId), two enrollments of the same pair are the same row |
| Models.RosterSize | Controllers/EnrollmentsController.cs:70-88 | different enrollments of one course belong to different users, so a roster has as many entries as enrollments |
| Data.RefersToShape | Data/EduSyncContext.cs:31-103 | every configured foreign key runs from its dependent table to its principal table, and points up a fixed ranking of tables |
| Data.OnDelete | Data/EduSyncContext.cs:31-103 | a relationship is NoAction exactly when its foreign key sits in enrollments, courses or assessments; every other one cascades |
| Data.CascadeChildren | Data/EduSyncContext.cs:69-103 | the rows deleted directly with a row are exactly its dependents along Cascade relationships |
| Data.Blockers | Data/EduSyncContext.cs:31-61 | the rows that block a delete are exactly the rows outside the doomed set that reference a doomed row through a NoAction relationship |
| Data.ConsistentByRelationships | Data/EduSyncContext.cs:31-103 | the store's foreign-key check holds iff every reference along the configured relationships lands on an existing row |
| Data.RemoveClosedKeepsValid | Data/EduSyncContext.cs:31-103 | removing a set of rows that contains every row referencing one of its members leaves no dangling foreign key |
| Data.Closure | Data/EduSyncContext.cs:69-103 | the rows deleting a row reaches include that row and its Cascade dependents, and none lies above it in the table ranking |
| Data.RemoveRowsExists | Controllers/CoursesController.cs:406-434 | after removing a set of rows, a row exists iff it existed before and was not in the set |
| Data.Delete | Data/EduSyncContext.cs:22-104 | Missing iff the row does not exist; a Restricted refusal names at least one blocking row; an accepted delete removes the row and creates no row |
| Data.ClosureIsCascadeClosed | Data/EduSyncContext.cs:69-103 | the cascade of a delete contains the Cascade dependents of each of its rows |
| Data.DeleteKeepsValid | Data/EduSyncContext.cs:22-104 | a delete the database accepts leaves a valid database |
| Data.LeafClosure | Data/EduSyncContext.cs:78-103 | options, student answers and enrollments are nobody's principal, so deleting one deletes only that row |
| Data.QuestionClosure | Data/EduSyncContext.cs:78-92 | deleting a question reaches exactly its options and the student answers to it |
| Data.AssessmentClosure | Data/EduSyncContext.cs:69-92 | deleting an assessment reaches its questions and, through them, their options and answers |
| Data.CourseClosure | Data/EduSyncContext.cs:39-61 | a course has only NoAction dependents, so deleting it cascades to nothing |
| Data.UserClosure | Data/EduSyncContext.cs:99-103 | deleting a user cascades exactly to that user's student answers |
| Data.DeleteUnblocked | Data/EduSyncContext.cs:22-104 | with no blocker, a delete removes the whole cascade of the row |
| Data.NoBlockersBelowCourses | Data/EduSyncContext.cs:31-61 | only users and courses are NoAction principals, so a doomed set holding neither is never blocked |
| Data.DeleteQuestionCascades | Data/EduSyncContext.cs:78-92 | deleting a question succeeds and removes it, its options and the answers to it; every other table and row is unchanged |
| Data.DeleteAssessmentCascades | Data/EduSyncContext.cs:69-92 | deleting an assessment succeeds and removes it, its questions and their options and answers; courses, users, enrollments and other assessments are unchanged |
| Data.CourseBlockers | Data/EduSyncContext.cs:39-61 | the rows blocking a course delete are exactly its assessments and its enrollments |
| Data.DeleteCourseRestricted | Data/EduSyncContext.cs:39-61 | deleting a course succeeds iff it has no assessment and no enrollment, and then removes only the course; otherwise nothing changes |
| Data.DeleteUserRestricted | Data/EduSyncContext.cs:31-103 | deleting a user succeeds iff they instruct no course and hold no enrollment, and then removes the user and their answers only |
| Data.ReplaceCourseKeepsValid | Data/EduSyncContext.cs:47-51 | rewriting a course under its own instructor keeps every foreign key resolved |
| Data.AddCourseChecked | Data/EduSyncContext.cs:47-51 | a new course under a fresh id passes the foreign-key check iff its instructor exists, and then keeps the store valid |
| Data.EduSyncContext.SaveChanges | Data/EduSyncContext.cs:31-103 | the staged state is committed iff all its foreign keys resolve; otherwise the committed state is unchanged |
| CoursesController.ScanExtension | Controllers/CoursesController.cs:62 | the backward scan of Path.GetExtension yields "" or a dot-led suffix of the name without further dots or separators; "" only for a trailing dot or no dot after the last separator |
| CoursesController.GetExtension | Controllers/CoursesController.cs:62 | the extension is "" or a well-formed suffix of the file name; "" only when the name ends in a dot or has no dot after its last separator |
| CoursesController.ToLower | Controllers/CoursesController.cs:62 | lower-casing keeps the length and maps each letter A-Z to its lower-case form |
| CoursesController.AllowedExtensions | Controllers/CoursesController.cs:43-60 | every allow-list entry is a dot-led lower-case extension; a folder other than videos, thumbnails and pdfs has an empty list |
| CoursesController.MaxSize | Controllers/CoursesController.cs:44-60 | every folder's limit lies between 10 MiB and 500 MiB |
| CoursesController.SaveFile | Controllers/CoursesController.cs:30-78 | no URL and no error iff the file is missing or empty; a stored file has an allowed extension and a length within the limit; a type refusal means the extension is not allowed, a size refusal that the length exceeds the limit |
| CoursesController.SaveFileRule | Controllers/CoursesController.cs:30-78 | a missing or empty file yields no URL without error; any other file is accepted iff its lower-cased extension is on the folder's allow-list and its length within the folder's limit (500, 10 or 100 MiB) |
| CoursesController.UnknownFolderRejects | Controllers/CoursesController.cs:43-66 | a folder other than videos, thumbnails and pdfs has an empty allow-list and rejects every non-empty file |
| CoursesController.ExtensionOfSuffix | Controllers/CoursesController.cs:62 | a name ending in a well-formed extension has that extension, whatever precedes it |
| CoursesController.SaveFileStores | Controllers/CoursesController.cs:87-98 | an accepted file gets a URL under /uploads/<folder>/ whose extension is the file's allowed lower-cased extension |
| CoursesController.ChangesFitKeepsFit | Models/Course.cs:14-32 | a stored course whose values fit the column lengths (100, 500 and 1024 UTF-16 units) still fits after an update the database accepts |
| CoursesController.CreateCourse | Controllers/CoursesController.cs:179-267 | Unauthorized without a caller; BadRequest for a blank title or description or a rejected file; otherwise exactly one course, instructed by the caller, is added under a fresh id iff the caller is a user and every value fits its column, and else the save fails (500) with nothing changed |
| CoursesController.UpdateCourse | Controllers/CoursesController.cs:271-352 | Unauthorized, NotFound, Forbidden and BadRequest for blank text, in that order; for the owner with non-blank text, BadRequest iff some sent file is rejected; otherwise the course with the new title, description and replaced media URLs is saved iff every changed value fits its column, and else 500 with nothing changed; no other row changes |
| CoursesController.Replace | Controllers/CoursesController.cs:305-321 | without a file the slot keeps its URL; an empty file clears it; the slot changes, or the update is refused, only when a file is sent |
| CoursesController.UpdateKeepsUnsentMedia | Controllers/CoursesController.cs:302-324 | a media slot without a new file keeps its URL |
| CoursesController.CourseGraph | Controllers/CoursesController.cs:400-434 | the rows DeleteCourse removes are exactly the course, its enrollments, its assessments, and their questions, options and student answers |
| CoursesController.MarkQuestions | Controllers/CoursesController.cs:417-428 | the inner loop marks exactly the questions of an assessment and their options |
| CoursesController.MarkAssessments | Controllers/CoursesController.cs:406-431 | the outer loop marks exactly the answers, questions and options of the given assessments |
| CoursesController.CourseGraphDownwardClosed | Controllers/CoursesController.cs:400-434 | every row referencing a row of the course's graph is itself in the graph |
| CoursesController.CourseGraphRemovalKeepsValid | Controllers/CoursesController.cs:435-443 | removing the course's graph leaves no dangling foreign key, so the single save succeeds |
| CoursesController.CourseGraphGone | Controllers/CoursesController.cs:400-434 | afterwards no course row, enrollment, assessment, question, option or answer of the course remains |
| CoursesController.CourseGraphRemovalIsolated | Controllers/CoursesController.cs:366-434 | deleting one course leaves every user, every other course and that course's whole graph as they were |
| CoursesController.DeleteCourse | Controllers/CoursesController.cs:356-444 | Unauthorized without a caller; NotFound before the ownership check; Forbidden leaves the database unchanged; otherwise exactly the course's graph is removed in one save |
| CoursesController.GetStudentsEnrolledInCourse | Controllers/CoursesController.cs:448-493 | Unauthorized, NotFound, Forbidden for a non-owner; the owner's call succeeds, with exactly the enrolled users whose role is "Student", as DTOs, with a count equal to the list's length |
| AssessmentsController.CreateAssessment | Controllers/AssessmentsController.cs:91-137 | BadRequest iff the body is invalid or names an unknown course, with nothing changed; otherwise exactly one assessment is added under the returned fresh id |
| AssessmentsController.UpdateAssessment | Controllers/AssessmentsController.cs:141-204 | BadRequest on an id mismatch or an invalid body, NotFound for an unknown assessment, BadRequest for an unknown course; otherwise exactly title, description, dates and course are overwritten |
| AssessmentsController.DeleteAssessment | Controllers/AssessmentsController.cs:208-220 | NotFound for an unknown assessment; otherwise the database's cascading delete of the assessment |
| AssessmentsController.GetQuestions | Controllers/AssessmentsController.cs:248-261 | NotFound iff the assessment is unknown; otherwise exactly the questions of that assessment, each with exactly its options |
| AssessmentsController.GetQuestion | Controllers/AssessmentsController.cs:263-276 | the question with its options iff it belongs to the assessment, NotFound otherwise |
| AssessmentsController.DeleteQuestion | Controllers/AssessmentsController.cs:358-373 | NotFound unless the question belongs to the assessment; otherwise the database's cascading delete of the question |
| AssessmentsController.GetResponses | Controllers/AssessmentsController.cs:386-402 | NotFound iff the assessment is unknown; otherwise exactly the answers to its questions |
| AssessmentsController.AddOptions | Controllers/AssessmentsController.cs:232-241 | inserting options consumes one identity value each and changes only the options table |
| AssessmentsController.AddAll | Controllers/AssessmentsController.cs:232-241 | a batch consumes at least one identity value per question and leaves users, courses, enrollments, assessments and answers unchanged |
| AssessmentsController.AddOptionsValid | Controllers/AssessmentsController.cs:232-241 | adding options to an existing question keeps the store valid and leaves the questions as they were |
| AssessmentsController.AddOptionsExtends | Controllers/AssessmentsController.cs:232-241 | adding options consumes one id each, keeps every earlier option, touches no other table and gives each new option that question |
| AssessmentsController.AddQuestionFrame | Controllers/AssessmentsController.cs:232-241 | adding one question with its options to an existing assessment keeps the store valid and touches only questions and options |
| AssessmentsController.AddAllFrame | Controllers/AssessmentsController.cs:232-241 | adding a batch keeps the store valid, keeps every earlier question and option, and puts every new question under the route's assessment |
| AssessmentsController.StageQuestions | Controllers/AssessmentsController.cs:232-241 | the loop stages the whole batch iff every text is non-blank, and the staged store is the batch added in order; otherwise BadRequest |
| AssessmentsController.AddQuestions | Controllers/AssessmentsController.cs:224-246 | NotFound for an unknown assessment; BadRequest with nothing saved if any text is blank; otherwise the whole batch is added in one save |
| AssessmentsController.Incoming | Controllers/AssessmentsController.cs:305-306 | a missing option list is read as an empty one |
| AssessmentsController.ReconcileStep | Controllers/AssessmentsController.cs:316-329 | an entry with id 0 consumes one identity value; no option is removed; an entry with an unknown nonzero id changes nothing |
| AssessmentsController.Reconcile | Controllers/AssessmentsController.cs:316-330 | the counter advances by at most one per incoming entry, and no option is removed |
| AssessmentsController.UpdatedStore | Controllers/AssessmentsController.cs:303-330 | only the questions and options tables change; the edited question is present afterwards and every other question keeps its row; the counter does not go back |
| AssessmentsController.ReconcileFresh | Controllers/AssessmentsController.cs:316-330 | each new option takes one identity value, and no key appears outside the old table, the edited ids and the fresh range |
| AssessmentsController.ReconcileKeeps | Controllers/AssessmentsController.cs:323-329 | an id that is not an existing option of the question keeps its row, or its absence |
| AssessmentsController.ReconcileAdds | Controllers/AssessmentsController.cs:318-322 | the i-th incoming option with id 0 becomes a new option of the route question under the id after the earlier new ones |
| AssessmentsController.ReconcileOverwrites | Controllers/AssessmentsController.cs:323-329 | the last incoming entry with an existing option's id decides that option's values |
| AssessmentsController.ReconcileOwned | Controllers/AssessmentsController.cs:316-330 | options keep a QuestionId from a given set when the route question and every overwriting QuestionId are in it |
| AssessmentsController.UpdatedStoreIdentity | Controllers/AssessmentsController.cs:316-322 | identity keys stay in range, with one new identity value per new option |
| AssessmentsController.UpdateRemovesDropped | Controllers/AssessmentsController.cs:308-314 | an existing option of the question whose id the incoming list lacks is removed |
| AssessmentsController.UpdateNullRemovesAll | Controllers/AssessmentsController.cs:305-314 | a missing option list removes every option of the question and adds none |
| AssessmentsController.UpdateAddsNew | Controllers/AssessmentsController.cs:318-322 | every incoming option with id 0 is inserted for the route question under a fresh id |
| AssessmentsController.UpdateOverwrites | Controllers/AssessmentsController.cs:323-329 | an existing option of the question takes the values of the last incoming entry with its id |
| AssessmentsController.UpdateKeepsOthers | Controllers/AssessmentsController.cs:323-329 | options of other questions are untouched, and an unknown nonzero id creates nothing |
| AssessmentsController.UpdateSaves | Controllers/AssessmentsController.cs:332-354 | the save succeeds when the question keeps an existing assessment and every overwritten option names an existing question |
| AssessmentsController.UpdateSaveFails | Controllers/AssessmentsController.cs:332-354 | the save fails when the deciding entry for an existing option names a missing question |
| AssessmentsController.UpdateQuestion | Controllers/AssessmentsController.cs:278-355 | BadRequest on an id or assessment-id mismatch or blank text and NotFound for a foreign question, before any change; otherwise the question and its reconciled options are saved at once, or the save fails with a server error and nothing changes |
| EnrollmentsController.PairRowsByKey | Controllers/EnrollmentsController.cs:32-35 | looking a pair up by value finds at most the row under its own key |
| EnrollmentsController.CanEnroll | Controllers/EnrollmentsController.cs:31-45 | a pair that passes the guards has no enrollment row yet, and names an existing course and an existing user |
| EnrollmentsController.EnrollKeepsValid | Controllers/EnrollmentsController.cs:47-49 | an enrollment that passes the guards keeps the store valid and leaves one row for the pair |
| EnrollmentsController.WithdrawKeepsValid | Controllers/EnrollmentsController.cs:143-148 | a withdrawal keeps the store valid and leaves no row for the pair |
| EnrollmentsController.WithdrawUndoesEnroll | Controllers/EnrollmentsController.cs:139-157 | withdrawing undoes an enrollment exactly, and the student may enroll again |
| EnrollmentsController.EnrollStudent | Controllers/EnrollmentsController.cs:27-57 | BadRequest for a pair already enrolled, NotFound for an unknown course, BadRequest for a missing user or a non-student, each with nothing changed; otherwise exactly one enrollment dated now; either way the pair has one row |
| EnrollmentsController.WithdrawStudent | Controllers/EnrollmentsController.cs:139-157 | NotFound iff the pair is not enrolled; otherwise exactly that enrollment is removed |
| EnrollmentsController.EnrollWithdrawEnroll | Controllers/EnrollmentsController.cs:27-157 | enroll, withdraw and enroll again on a valid pair each succeed and end with one row, dated by the last enrollment |
| EnrollmentsController.GetEnrolledStudents | Controllers/EnrollmentsController.cs:62-94 | NotFound iff the course is unknown; otherwise exactly the enrolled users whose role is "Student", with their enrollment dates, and TotalStudents equal to the list's length |
| EnrollmentsController.GetEnrolledCourses | Controllers/EnrollmentsController.cs:99-134 | NotFound for an unknown user, BadRequest for a non-student; otherwise exactly one entry per enrollment of that user |
| UsersController.UniqueNamed | Controllers/UsersController.cs:28-33 | with unique usernames, the name lookup finds one user |
| UsersController.Login | Controllers/UsersController.cs:26-50 | Unauthorized for an unknown name or a wrong password; a success names a user with that name and password; with unique usernames, success iff such a user exists |
| UsersController.AddUserKeepsUnique | Controllers/UsersController.cs:57-64 | adding a user whose name is not taken keeps usernames unique |
| UsersController.Register | Controllers/UsersController.cs:54-65 | BadRequest iff the name is taken, with nothing changed; otherwise exactly one user under a fresh id; usernames stay unique |
| UsersController.UpdateUserFrame | Controllers/UsersController.cs:82-94 | the update overwrites username, email and role, keeps the password and every other user, and keeps the store valid |
| UsersController.UpdateUserMayDuplicate | Controllers/UsersController.cs:82-94 | renaming a user to another user's name duplicates it, since UpdateUser does not check uniqueness |
| UsersController.UpdateUser | Controllers/UsersController.cs:80-98 | BadRequest on an id mismatch, NotFound for an unknown user, each with nothing changed; otherwise the profile update above |
| UsersController.DeleteUser | Controllers/UsersController.cs:102-112 | NotFound for an unknown user; a user still instructing a course or holding an enrollment is refused with nothing changed; otherwise the user and their answers are removed |
| QuestionManager.CheckAsWritten | Edusync_frontend/src/components/QuestionManager.js:57-71 | blank text is refused; a multiple-choice question passes iff some option has text and some option, blank or not, is marked correct |
| QuestionManager.SentOptions | Edusync_frontend/src/components/QuestionManager.js:80 | only options with text are sent, and none for other question types |
| QuestionManager.SentOptionsKeepsFilled | Edusync_frontend/src/components/QuestionManager.js:80 | every option with text is sent, and the sent options keep the form's order |
| QuestionManager.CheckAsWrittenAdmitsNoCorrect | Edusync_frontend/src/components/QuestionManager.js:62-80 | the written check accepts a multiple-choice question whose only correct option is a single space, which leaves no correct option in the payload |
| QuestionManager.Check | Edusync_frontend/src/components/QuestionManager.js:57-71 | blank text is refused; a multiple-choice question passes iff some option with text is marked correct |
| QuestionManager.CheckSendsCorrect | Edusync_frontend/src/components/QuestionManager.js:62-80 | a multiple-choice question that passes the corrected check sends a correct option |
| QuestionManager.CheckRefinesAsWritten | Edusync_frontend/src/components/QuestionManager.js:62-71 | the corrected check accepts only forms the written one accepts |
| QuestionManager.CheckAsWrittenSendsSome | Edusync_frontend/src/components/QuestionManager.js:62-80 | a multiple-choice form that passes the written check sends at least one option |
| QuestionManager.HandleAddQuestion | Edusync_frontend/src/components/QuestionManager.js:52-100 | refused iff the written check refuses, with its error; otherwise it posts the text and type with exactly the options that have text, in form order, at least one for multiple choice and none otherwise |
| QuestionManager.HandleAddQuestionChecked | Edusync_frontend/src/components/QuestionManager.js:52-100 | with the corrected check the handler refuses iff that check does, posts what the written handler posts otherwise, and a multiple-choice post always holds a correct option |
| QuestionManager.AddPayloadPassesServerCheck | Edusync_frontend/src/components/QuestionManager.js:75-84 | a question the form posts, whose text lacks U+0085, passes AddQuestions' blank-text check |
| QuestionManager.NextLineTextRefusedByServer | Edusync_frontend/src/components/QuestionManager.js:57-84 | the text U+0085 alone passes the form's check but fails AddQuestions' blank-text check |
| QuestionManager.EditClick | Edusync_frontend/src/components/QuestionManager.js:121-128 | the edit form copies the question, with one blank option when it came without an option list |
| QuestionManager.IdOrZero | Edusync_frontend/src/components/QuestionManager.js:158 | a missing or zero option id becomes 0; any other id is kept |
| QuestionManager.ToOptionInputs | Edusync_frontend/src/components/QuestionManager.js:153-159 | each sent option keeps its text and flag, its id or 0, and gets the edited question's id |
| QuestionManager.HandleUpdateQuestion | Edusync_frontend/src/components/QuestionManager.js:131-184 | no form is refused, then the written check applies with its error; otherwise the body keeps the question's fields and sends exactly the options with text, each with its id or 0 and the edited question's id |
| QuestionManager.HandleUpdateQuestionChecked | Edusync_frontend/src/components/QuestionManager.js:131-184 | with the corrected check the handler refuses iff that check does, sends what the written handler sends otherwise, and a multiple-choice body always holds a correct option |
| QuestionManager.UpdatePayloadSaves | Edusync_frontend/src/components/QuestionManager.js:153-168 | a body from the edit form, for a question of its assessment, always passes the database check of UpdateQuestion's save |
| QuestionManager.RemoveOption | Edusync_frontend/src/components/QuestionManager.js:198-200 | removing drops exactly the entry at the index and keeps the others in order |
| QuestionManager.AddOption | Edusync_frontend/src/components/QuestionManager.js:194-196 | adding appends one blank, incorrect option and keeps the rest |
| QuestionManager.AddEditOption | Edusync_frontend/src/components/QuestionManager.js:210-216 | the edit form appends one blank, incorrect option with id 0 and keeps the rest |
| QuestionManager.AddThenRemove | Edusync_frontend/src/components/QuestionManager.js:194-222 | removing the option just added gives the list back |
| QuestionManager.ChangeOption | Edusync_frontend/src/components/QuestionManager.js:187-208 | a change alters only the named field of the entry at the index |
| QuestionManager.ChangeKeepsIds | Edusync_frontend/src/components/QuestionManager.js:203-208 | a change keeps every option's id |
| QuestionManager.SwitchType | Edusync_frontend/src/components/QuestionManager.js:333-339 | switching to multiple choice keeps existing options or starts one blank option with id 0; any other type clears them |
| QuestionManager.SwitchAwayClearsOptions | Edusync_frontend/src/components/QuestionManager.js:338 | after switching to another type the update sends no options |
| StudentDashboard.AvailableCourses | Edusync_frontend/src/components/StudentDashboard.js:33-35 | the available courses are exactly the catalogue courses whose id is not an enrolled course's id |
| StudentDashboard.AvailableKeepsOrder | Edusync_frontend/src/components/StudentDashboard.js:35 | the available list keeps the catalogue's order |
| StudentDashboard.AfterEnroll | Edusync_frontend/src/components/StudentDashboard.js:66 | after an enroll exactly the courses with that id leave the available list |
| StudentDashboard.AfterEnrollMatchesReload | Edusync_frontend/src/components/StudentDashboard.js:60-69 | the list after an enroll equals the list a full reload computes with that course enrolled |
| StudentDashboard.StatusText | Edusync_frontend/src/components/StudentDashboard.js:103-113 | "Pending" iff a date is missing; "Completed" iff both dates are set and it is completed; otherwise "Upcoming" iff now is before the start, "Expired" iff the end is past, "Active" iff start <= now <= end |
| StudentDashboard.StatusClass | Edusync_frontend/src/components/StudentDashboard.js:91-101 | the class is "status-active" iff both dates are set, it is not completed and start <= now <= end |
| StudentDashboard.StatusClassMatchesText | Edusync_frontend/src/components/StudentDashboard.js:91-113 | the badge's class is always the one that belongs to its text |
| StudentDashboard.TakeEnabledInWindow | Edusync_frontend/src/components/StudentDashboard.js:284-288 | the assessment button is enabled iff the status is "Active", i.e. within the window and not completed |
| StudentDashboard.CompletedButtonDisabled | Edusync_frontend/src/components/StudentDashboard.js:284-289 | a completed assessment's "View Results" button is never enabled |
| StudentAssessment.BlankAnswer | Edusync_frontend/src/components/StudentAssessment.js:35 | the empty answer is an empty list for multiple choice and empty text otherwise |
| StudentAssessment.InitialMapKeys | Edusync_frontend/src/components/StudentAssessment.js:33-36 | the initial map has an entry for exactly the questions' ids |
| StudentAssessment.InitialMapBlank | Edusync_frontend/src/components/StudentAssessment.js:33-36 | with distinct ids, every question starts with its type's empty answer |
| StudentAssessment.InitialAnswers | Edusync_frontend/src/components/StudentAssessment.js:33-37 | the loop builds the initial map: keys are the question ids, and with distinct ids every answer is its type's empty answer |
| StudentAssessment.AnswerChange | Edusync_frontend/src/components/StudentAssessment.js:56-68 | multiple choice stores a list, wrapping a single value; other types store the value as given; no other answer changes |
| StudentAssessment.AnswerChangeKeepsShape | Edusync_frontend/src/components/StudentAssessment.js:56-68 | answer changes keep each answer in its question type's shape |
| StudentAssessment.Check | Edusync_frontend/src/components/StudentAssessment.js:153-155 | checking appends the option's id |
| StudentAssessment.Uncheck | Edusync_frontend/src/components/StudentAssessment.js:156-160 | unchecking removes every occurrence of the id and keeps the other ids |
| StudentAssessment.UncheckUndoesCheck | Edusync_frontend/src/components/StudentAssessment.js:150-161 | unchecking right after checking gives what unchecking alone gives |
| StudentAssessment.UncheckAbsent | Edusync_frontend/src/components/StudentAssessment.js:156-160 | unchecking an id that is not checked changes nothing |
| StudentAssessment.Unanswered | Edusync_frontend/src/components/StudentAssessment.js:77-83 | a missing answer or empty text always counts as unanswered; an unanswered entry holds an empty list or text |
| StudentAssessment.Malformed | Edusync_frontend/src/components/StudentAssessment.js:77-83 | a list answer to a text question, which trim cannot handle, is never counted unanswered, and a sheet in its types' shapes has none |
| StudentAssessment.HandleSubmit | Edusync_frontend/src/components/StudentAssessment.js:70-94 | the sheet is sent iff no question is unanswered or malformed; a list answer to a text question makes the check fail |
| StudentAssessment.WellShapedNeverFails | Edusync_frontend/src/components/StudentAssessment.js:77-83 | a sheet whose answers have their types' shapes never makes the check fail |
| StudentAssessment.FreshSheetNotSubmitted | Edusync_frontend/src/components/StudentAssessment.js:77-89 | a fresh sheet of a non-empty assessment is refused as not all answered |

## Left out

- QuestionManager.AddPayloadPassesServerCheck: holds only for texts without U+0085. `trim` keeps that character and `IsNullOrWhiteSpace` skips it, so a text made of it passes the form and is refused by AddQuestions (`NextLineTextRefusedByServer`).

- File writes and deletes in `SaveFile` and `DeleteFile` are left out. The GUID-and-tick file name is the opaque parameter `stem`.
- CoursesController.GetExtension: models Path.GetExtension for '/' and '\\' separators only, without the invalid-character checks of .NET.
- CoursesController.ToLower: lower-cases ASCII letters only, where ToLowerInvariant also maps other scripts.
- JWT issuance and validation, and claim parsing, are left out: the caller id is a parameter that is missing when the claim is absent. An unparsable claim is treated like a missing one.
- `[Authorize(Roles = ...)]` filters and the ASP.NET pipeline are left out: they run before the actions.
- Automatic model validation of entity bodies by `[ApiController]`, such as `[Required]` on question text, is left out. Only the explicit checks and the annotations of the assessment DTOs are modelled.
- Exceptions other than a failed foreign-key check or an over-long course value on save are left out, such as `DbUpdateConcurrencyException` and connection errors. Console logging is left out too.
- Usernames and roles are compared exactly. This covers the username lookups and the `Role == "Student"` filters of the roster queries (`Models.StudentEnrollmentsOf`). A database collation that ignores case would also match "student" or a differently cased name.
- UsersController.Login: `FirstOrDefault` without ordering is modelled as an arbitrary user with that name, so with duplicate names the result is stated only for the user picked.
- AssessmentsController.AddQuestions, UsersController.Register: ids in the request body are not modelled. This covers the question ids and option ids sent to AddQuestions and the user id sent to Register. Every row gets a fresh identity value; with an identity column, a nonzero id would instead make the insert fail.
- Identity values come from one counter shared by all tables instead of one sequence per table; only their freshness matters here.
- Query results are sets or maps, so the order of rows in responses is not modelled.
- `SubmitAnswers`, the listing endpoints (`GetCourses`, `GetCourse`, the user and assessment lists), `AuthController`, `UserProfileController` and `ValuesController` are left out: they are plain reads or writes without rules.
- The root-level `CoursesController.cs` is an older copy of the courses controller and is not modelled.
- Migrations only repeat the delete rules of the context; `ModulePdfUrl` is taken from them.
- Dates are integers. Unparsable date strings, whose comparisons in JavaScript are all false, are left out.
- `calculateProgress` in the dashboard is placeholder arithmetic on floating point and is left out.
- StudentAssessment.CurrentChoices: a text answer on a multiple-choice question is read as no checked option. The source would spread the text's characters, but its handlers never store text for such a question.
- Rendering, routing, axios calls, `localStorage` and displayed messages are left out. React state updates are modelled as functions from the old state to the new one.

## Findings

| source | as written | input that shows it | evidently intended | confidence | as-written member | corrected member |
|---|---|---|---|---|---|---|
| Controllers/CoursesController.cs:295 | `Forbid` is given a message, here and at lines 383 and 466, and takes it for an authentication scheme name; no handler is registered for it, so the response is 500 | an educator who is not the course's instructor updates, deletes or lists the students of the course | `Forbid()` without arguments, answering 403 | high; not executed | Models.ForbidWithMessageFails | Models.ForbidWithoutMessageIs403 |
| Edusync_frontend/src/components/QuestionManager.js:67-70 | the correct-option count runs over all option rows, blank ones included, before blank rows are dropped from the payload | a multiple-choice question "Q" with options ("A", not correct) and (" ", a single space, correct); the space passes the inputs' `required` attribute | count only the options that have text, so that a saved multiple-choice question has a correct option | medium; not executed | QuestionManager.CheckAsWrittenAdmitsNoCorrect | QuestionManager.Check |
