/**
 * Controllers/AssessmentsController.cs: assessment creation, update and
 * deletion, the question endpoints (batch add, queries, update with option
 * reconciliation, delete) and student answers.
 */
module AssessmentsController {
  import opened Models
  import opened Data

  // ----- assessments -----

  /** The body of the create and update requests (CreateAssessmentDto, UpdateAssessmentDto). */
  datatype AssessmentInput = AssessmentInput(title: string, description: string, startDate: int, endDate: int, courseId: int)

  /** CreateAssessmentDto's annotations: Title is required and at most 255 UTF-16 code units long. */
  predicate CreateInputValid(d: AssessmentInput)
  {
    !IsBlankNet(d.title) && Utf16Length(d.title) <= 255
  }

  /** UpdateAssessmentDto's annotations: Title is required and at most 200 UTF-16 code units long. */
  predicate UpdateInputValid(d: AssessmentInput)
  {
    !IsBlankNet(d.title) && Utf16Length(d.title) <= 200
  }

  function ToAssessment(d: AssessmentInput): Assessment
  {
    Assessment(d.title, d.description, d.startDate, d.endDate, d.courseId)
  }

  /**
   * CreateAssessment: BadRequest for an invalid body or an unknown course;
   * otherwise the assessment is added under a fresh id, which is returned.
   */
  method CreateAssessment(db: EduSyncContext, d: AssessmentInput) returns (r: Result<int, Status>)
    requires db.Valid()
    modifies db
    ensures db.Valid()
    ensures r.Err? <==> !CreateInputValid(d) || d.courseId !in old(db.courses)
    ensures r.Err? ==> r.error == BadRequest && db.State() == old(db.State())
    ensures r.Ok? ==>
      && r.value == old(db.nextId) && r.value !in old(db.assessments)
      && db.State() == old(db.State()).(assessments := old(db.assessments)[r.value := ToAssessment(d)], nextId := r.value + 1)
  {
    if !CreateInputValid(d) {
      return Err(BadRequest);
    }
    var s := db.State();
    if d.courseId !in s.courses {
      return Err(BadRequest);
    }
    var id := s.nextId;
    var pending := s.(assessments := s.assessments[id := ToAssessment(d)], nextId := id + 1);
    assert id in pending.assessments;
    var saved := db.SaveChanges(pending);
    assert saved;
    r := Ok(id);
  }

  /**
   * UpdateAssessment: BadRequest when the URL id and the body id differ or the
   * body is invalid, NotFound for an unknown assessment, BadRequest for an
   * unknown course; otherwise exactly the five fields are overwritten.
   */
  method UpdateAssessment(db: EduSyncContext, id: int, bodyId: int, d: AssessmentInput) returns (r: Result<(), Status>)
    requires db.Valid()
    modifies db
    ensures db.Valid()
    ensures id != bodyId || !UpdateInputValid(d) ==> r == Err(BadRequest)
    ensures id == bodyId && UpdateInputValid(d) && id !in old(db.assessments) ==> r == Err(NotFound)
    ensures id == bodyId && UpdateInputValid(d) && id in old(db.assessments) ==>
      r == (if d.courseId in old(db.courses) then Ok(()) else Err(BadRequest))
    ensures r.Err? ==> db.State() == old(db.State())
    ensures r.Ok? ==> db.State() == old(db.State()).(assessments := old(db.assessments)[id := ToAssessment(d)])
  {
    if id != bodyId || !UpdateInputValid(d) {
      return Err(BadRequest);
    }
    var s := db.State();
    if id !in s.assessments {
      return Err(NotFound);
    }
    if d.courseId !in s.courses {
      return Err(BadRequest);
    }
    var saved := db.SaveChanges(s.(assessments := s.assessments[id := ToAssessment(d)]));
    if !saved {
      return Err(ServerError);
    }
    r := Ok(());
  }

  /**
   * DeleteAssessment: NotFound for an unknown assessment; otherwise the
   * database deletes it with its questions, their options and their answers.
   */
  method DeleteAssessment(db: EduSyncContext, id: int) returns (r: Result<(), Status>)
    requires db.Valid()
    modifies db
    ensures db.Valid()
    ensures r.Err? <==> id !in old(db.assessments)
    ensures r.Err? ==> r.error == NotFound && db.State() == old(db.State())
    ensures r.Ok? ==> Delete(old(db.State()), AssessmentRow(id)) == Ok(db.State())
  {
    var s := db.State();
    if id !in s.assessments {
      return Err(NotFound);
    }
    DeleteAssessmentCascades(s, id);
    DeleteKeepsValid(s, AssessmentRow(id));
    var saved := db.SaveChanges(Delete(s, AssessmentRow(id)).value);
    assert saved;
    r := Ok(());
  }

  // ----- question queries and deletion -----

  /** A question as the endpoints return it: its row and its options. */
  datatype QuestionView = QuestionView(question: Question, options: map<int, Option>)

  function ViewOf(s: Store, q: int): QuestionView
    requires q in s.questions
  {
    QuestionView(s.questions[q], map o | o in OptionsOf(s, q) :: s.options[o])
  }

  /** GetQuestions: NotFound for an unknown assessment, otherwise exactly its questions, each with its options. */
  function GetQuestions(s: Store, a: int): (r: Result<map<int, QuestionView>, Status>)
    ensures r.Err? <==> a !in s.assessments
    ensures r.Err? ==> r.error == NotFound
    ensures r.Ok? ==> forall q :: q in r.value <==> q in s.questions && s.questions[q].assessmentId == a
    ensures r.Ok? ==> forall q :: q in r.value ==>
      r.value[q].question == s.questions[q]
      && forall o :: o in r.value[q].options <==> o in s.options && s.options[o].questionId == q
  {
    if a !in s.assessments then Err(NotFound)
    else Ok(map q | q in QuestionsOf(s, a) :: ViewOf(s, q))
  }

  /** GetQuestion: the question with that id if it belongs to that assessment, NotFound otherwise. */
  function GetQuestion(s: Store, a: int, q: int): (r: Result<QuestionView, Status>)
    ensures r.Ok? <==> q in s.questions && s.questions[q].assessmentId == a
    ensures r.Err? ==> r.error == NotFound
    ensures r.Ok? ==> r.value.question == s.questions[q]
    ensures r.Ok? ==> forall o :: o in r.value.options <==> o in s.options && s.options[o].questionId == q
  {
    if q in s.questions && s.questions[q].assessmentId == a then Ok(ViewOf(s, q)) else Err(NotFound)
  }

  /**
   * DeleteQuestion: NotFound unless the question belongs to the assessment;
   * otherwise the database deletes it with its options and answers.
   */
  method DeleteQuestion(db: EduSyncContext, a: int, q: int) returns (r: Result<(), Status>)
    requires db.Valid()
    modifies db
    ensures db.Valid()
    ensures r.Err? <==> !(q in old(db.questions) && old(db.questions)[q].assessmentId == a)
    ensures r.Err? ==> r.error == NotFound && db.State() == old(db.State())
    ensures r.Ok? ==> Delete(old(db.State()), QuestionRow(q)) == Ok(db.State())
  {
    var s := db.State();
    if !(q in s.questions && s.questions[q].assessmentId == a) {
      return Err(NotFound);
    }
    DeleteQuestionCascades(s, q);
    DeleteKeepsValid(s, QuestionRow(q));
    var saved := db.SaveChanges(Delete(s, QuestionRow(q)).value);
    assert saved;
    r := Ok(());
  }

  /** GetResponses: NotFound for an unknown assessment, otherwise the answers to its questions. */
  function GetResponses(s: Store, a: int): (r: Result<map<int, StudentAnswer>, Status>)
    ensures r.Err? <==> a !in s.assessments
    ensures r.Err? ==> r.error == NotFound
    ensures r.Ok? ==> forall x :: x in r.value <==>
      x in s.answers && s.answers[x].questionId in s.questions && s.questions[s.answers[x].questionId].assessmentId == a
    ensures r.Ok? ==> forall x :: x in r.value ==> r.value[x] == s.answers[x]
  {
    if a !in s.assessments then Err(NotFound)
    else Ok(map x | x in AnswersOfAssessment(s, a) :: s.answers[x])
  }

  // ----- AddQuestions -----

  /** An option in the body of AddQuestions: the database assigns its id. */
  datatype NewOption = NewOption(text: string, isCorrect: bool)

  /** A question in the body of AddQuestions, with the options it is created with. */
  datatype NewQuestion = NewQuestion(text: string, questionType: string, options: seq<NewOption>)

  /** Inserts `opts` in order as options of question `q`, each under the next fresh id. */
  function AddOptions(s: Store, q: int, opts: seq<NewOption>): (t: Store)
    ensures t.nextId == s.nextId + |opts|
    ensures OnlyOptionsDiffer(s, t)
    decreases |opts|
  {
    if opts == [] then s
    else
      var t := AddOptions(s, q, opts[..|opts| - 1]);
      var o := opts[|opts| - 1];
      t.(options := t.options[t.nextId := Option(o.text, o.isCorrect, q)], nextId := t.nextId + 1)
  }

  /** Inserts one question of assessment `a` under the next fresh id, then its options. */
  function AddQuestion(s: Store, a: int, nq: NewQuestion): Store
  {
    var q := s.nextId;
    AddOptions(s.(questions := s.questions[q := Question(nq.text, nq.questionType, a)], nextId := q + 1), q, nq.options)
  }

  /** The store once every question of `qs` has been added, in order, to assessment `a`. */
  function AddAll(s: Store, a: int, qs: seq<NewQuestion>): (t: Store)
    ensures s.nextId + |qs| <= t.nextId
    ensures OnlyQuestionsAndOptionsDiffer(s, t)
    decreases |qs|
  {
    if qs == [] then s else AddQuestion(AddAll(s, a, qs[..|qs| - 1]), a, qs[|qs| - 1])
  }

  /** Every option id is below the next fresh id. */
  predicate OptionIdsBelow(s: Store)
  {
    forall k :: k in s.options ==> k < s.nextId
  }

  /** Every table but the questions and the options is the same in both stores. */
  predicate OnlyQuestionsAndOptionsDiffer(s: Store, t: Store)
  {
    && t.users == s.users && t.courses == s.courses && t.enrollments == s.enrollments
    && t.assessments == s.assessments && t.answers == s.answers
  }

  /** Every table but the options is the same in both stores. */
  predicate OnlyOptionsDiffer(s: Store, t: Store)
  {
    && t.users == s.users && t.courses == s.courses && t.enrollments == s.enrollments
    && t.assessments == s.assessments && t.questions == s.questions && t.answers == s.answers
  }

  /**
   * Adding options consumes one id per option, keeps every earlier option and
   * touches no other table; each new option belongs to `q`.
   */
  lemma {:induction false} AddOptionsExtends(s: Store, q: int, opts: seq<NewOption>)
    requires OptionIdsBelow(s)
    ensures OptionIdsBelow(AddOptions(s, q, opts))
    ensures AddOptions(s, q, opts).nextId == s.nextId + |opts|
    ensures OnlyOptionsDiffer(s, AddOptions(s, q, opts))
    ensures forall k :: k in s.options ==> k in AddOptions(s, q, opts).options && AddOptions(s, q, opts).options[k] == s.options[k]
    ensures forall k :: k in AddOptions(s, q, opts).options && k !in s.options ==> AddOptions(s, q, opts).options[k].questionId == q
    decreases |opts|
  {
    if opts != [] {
      var before := AddOptions(s, q, opts[..|opts| - 1]);
      var o := opts[|opts| - 1];
      AddOptionsExtends(s, q, opts[..|opts| - 1]);
      assert AddOptions(s, q, opts) == before.(options := before.options[before.nextId := Option(o.text, o.isCorrect, q)], nextId := before.nextId + 1);
    }
  }

  /** Adding options to an existing question keeps the store valid. */
  lemma {:induction false} AddOptionsValid(s: Store, q: int, opts: seq<NewOption>)
    requires Valid(s) && q in s.questions
    ensures Valid(AddOptions(s, q, opts))
    ensures AddOptions(s, q, opts).questions == s.questions
    decreases |opts|
  {
    if opts != [] {
      var before := AddOptions(s, q, opts[..|opts| - 1]);
      var o := opts[|opts| - 1];
      AddOptionsValid(s, q, opts[..|opts| - 1]);
      assert AddOptions(s, q, opts) == before.(options := before.options[before.nextId := Option(o.text, o.isCorrect, q)], nextId := before.nextId + 1);
      AddOptionKeepsValid(before, q, o);
    }
  }

  /** One option of an existing question, under the next fresh id, keeps the store valid. */
  lemma AddOptionKeepsValid(s: Store, q: int, o: NewOption)
    requires Valid(s) && q in s.questions
    ensures Valid(s.(options := s.options[s.nextId := Option(o.text, o.isCorrect, q)], nextId := s.nextId + 1))
  {
  }

  /**
   * `t` extends `s` by questions of assessment `a` and by options: the other
   * tables are the same and every earlier question and option is kept.
   */
  predicate Extends(s: Store, t: Store, a: int)
  {
    && s.nextId <= t.nextId
    && t.users == s.users && t.courses == s.courses && t.enrollments == s.enrollments
    && t.assessments == s.assessments && t.answers == s.answers
    && (forall k :: k in s.questions ==> k in t.questions && t.questions[k] == s.questions[k])
    && (forall k :: k in s.options ==> k in t.options && t.options[k] == s.options[k])
    && (forall k :: k in t.questions && k !in s.questions ==> t.questions[k].assessmentId == a)
  }

  /** The store-level facts that adding questions or options preserves. */
  ghost predicate Grows(s: Store, t: Store, a: int)
  {
    Valid(t) && Extends(s, t, a)
  }

  lemma ExtendsTransitive(s: Store, m: Store, t: Store, a: int)
    requires Extends(s, m, a) && Extends(m, t, a)
    ensures Extends(s, t, a)
  {
  }

  /** Adding one question with its options only grows the question and option tables. */
  lemma QuestionAddedExtends(s: Store, a: int, nq: NewQuestion)
    requires IdentityOk(s)
    ensures Extends(s, AddQuestion(s, a, nq), a)
  {
    var q := s.nextId;
    var mid := s.(questions := s.questions[q := Question(nq.text, nq.questionType, a)], nextId := q + 1);
    var t := AddQuestion(s, a, nq);
    AddOptionsExtends(mid, q, nq.options);
    assert t.questions == mid.questions;
  }

  /** Adding one question, with its options, to an existing assessment. */
  lemma AddQuestionFrame(s: Store, a: int, nq: NewQuestion)
    requires Valid(s) && a in s.assessments
    ensures Grows(s, AddQuestion(s, a, nq), a)
  {
    var q := s.nextId;
    var mid := s.(questions := s.questions[q := Question(nq.text, nq.questionType, a)], nextId := q + 1);
    assert AddQuestion(s, a, nq) == AddOptions(mid, q, nq.options);
    AddQuestionRowKeepsValid(s, a, nq);
    AddOptionsValid(mid, q, nq.options);
    QuestionAddedExtends(s, a, nq);
  }

  /** The question row alone, under the next fresh id, keeps the store valid. */
  lemma AddQuestionRowKeepsValid(s: Store, a: int, nq: NewQuestion)
    requires Valid(s) && a in s.assessments
    ensures Valid(s.(questions := s.questions[s.nextId := Question(nq.text, nq.questionType, a)], nextId := s.nextId + 1))
  {
    var mid := s.(questions := s.questions[s.nextId := Question(nq.text, nq.questionType, a)], nextId := s.nextId + 1);
    assert IdentityOk(mid);
    assert Consistent(mid);
  }

  /**
   * Adding questions to an existing assessment keeps the store valid and
   * touches nothing but the question and option tables; earlier questions and
   * options are kept, and every new question belongs to assessment `a`.
   */
  lemma {:induction false} AddAllFrame(s: Store, a: int, qs: seq<NewQuestion>)
    requires Valid(s) && a in s.assessments
    ensures Grows(s, AddAll(s, a, qs), a)
    decreases |qs|
  {
    if qs != [] {
      var before := AddAll(s, a, qs[..|qs| - 1]);
      AddAllFrame(s, a, qs[..|qs| - 1]);
      AddQuestionFrame(before, a, qs[|qs| - 1]);
      ExtendsTransitive(s, before, AddAll(s, a, qs), a);
    }
  }

  /** All questions `qs` are added in one save: they all have non-blank text. */
  predicate AllTextsGiven(qs: seq<NewQuestion>)
  {
    forall i :: 0 <= i < |qs| ==> !IsBlankNet(qs[i].text)
  }

  /**
   * AddQuestions: NotFound for an unknown assessment; BadRequest, with nothing
   * saved, if any question has blank text; otherwise all questions are added
   * to that assessment, with their options, in one save.
   */
  method AddQuestions(db: EduSyncContext, a: int, qs: seq<NewQuestion>) returns (r: Result<(), Status>)
    requires db.Valid()
    modifies db
    ensures db.Valid()
    ensures a !in old(db.assessments) ==> r == Err(NotFound)
    ensures a in old(db.assessments) ==> r == (if AllTextsGiven(qs) then Ok(()) else Err(BadRequest))
    ensures r.Err? ==> db.State() == old(db.State())
    ensures r.Ok? ==> db.State() == AddAll(old(db.State()), a, qs)
  {
    var s := db.State();
    if a !in s.assessments {
      return Err(NotFound);
    }
    var staged := StageQuestions(s, a, qs);
    if staged.Err? {
      return Err(BadRequest);
    }
    AddAllFrame(s, a, qs);
    var saved := db.SaveChanges(staged.value);
    assert saved;
    r := Ok(());
  }

  /**
   * The loop of AddQuestions on the change tracker's copy `s`: each question
   * is checked, then staged under assessment `a`; the first blank text stops
   * the loop with BadRequest.
   */
  method StageQuestions(s: Store, a: int, qs: seq<NewQuestion>) returns (r: Result<Store, Status>)
    ensures r.Ok? <==> AllTextsGiven(qs)
    ensures r.Ok? ==> r.value == AddAll(s, a, qs)
    ensures r.Err? ==> r.error == BadRequest
  {
    var pending := s;
    var i := 0;
    while i < |qs|
      invariant 0 <= i <= |qs|
      invariant pending == AddAll(s, a, qs[..i])
      invariant AllTextsGiven(qs[..i])
    {
      if IsBlankNet(qs[i].text) {
        return Err(BadRequest);
      }
      assert qs[..i + 1][..i] == qs[..i];
      pending := AddQuestion(pending, a, qs[i]);
      i := i + 1;
    }
    assert qs[..|qs|] == qs;
    return Ok(pending);
  }

  // ----- UpdateQuestion: option reconciliation -----

  /** An option in the body of UpdateQuestion; id 0 asks for a new option. */
  datatype OptionInput = OptionInput(id: int, text: string, isCorrect: bool, questionId: int)

  /** The body of UpdateQuestion; its option list may be missing. */
  datatype QuestionInput = QuestionInput(
    id: int,
    text: string,
    questionType: string,
    assessmentId: int,
    options: Nullable<seq<OptionInput>>)

  /** The incoming option list, a missing one read as empty. */
  function Incoming(body: QuestionInput): (incoming: seq<OptionInput>)
    ensures body.options.Null? ==> incoming == []
    ensures body.options.Some? ==> incoming == body.options.value
  {
    match body.options
    case Some(list) => list
    case Null => []
  }

  /** The ids the incoming option list mentions. */
  function IncomingIds(incoming: seq<OptionInput>): set<int>
  {
    set u | u in incoming :: u.id
  }

  /** The option table without the rows `gone`. */
  function Without(options: map<int, Option>, gone: set<int>): map<int, Option>
  {
    map k | k in options && k !in gone :: options[k]
  }

  /** The option table being edited, with the next identity value. */
  datatype Staged = Staged(options: map<int, Option>, nextId: int)

  /** The number of incoming options with id 0, i.e. the number of new rows. */
  function Zeros(incoming: seq<OptionInput>): nat
    decreases |incoming|
  {
    if incoming == [] then 0
    else Zeros(incoming[..|incoming| - 1]) + (if incoming[|incoming| - 1].id == 0 then 1 else 0)
  }

  /**
   * One incoming option: id 0 is inserted for question `q` under a fresh id;
   * the id of an option `existing` before the update has its values
   * overwritten, QuestionId included; any other id is ignored.
   */
  function ReconcileStep(st: Staged, existing: set<int>, q: int, u: OptionInput): (r: Staged)
    ensures r.nextId == st.nextId + (if u.id == 0 then 1 else 0)
    ensures st.options.Keys <= r.options.Keys
    ensures u.id != 0 && u.id !in existing ==> r == st
  {
    if u.id == 0 then Staged(st.options[st.nextId := Option(u.text, u.isCorrect, q)], st.nextId + 1)
    else if u.id in existing then Staged(st.options[u.id := Option(u.text, u.isCorrect, u.questionId)], st.nextId)
    else st
  }

  /** The incoming options applied in list order. */
  function Reconcile(st: Staged, existing: set<int>, q: int, incoming: seq<OptionInput>): (r: Staged)
    ensures st.nextId <= r.nextId <= st.nextId + |incoming|
    ensures st.options.Keys <= r.options.Keys
    decreases |incoming|
  {
    if incoming == [] then st
    else ReconcileStep(Reconcile(st, existing, q, incoming[..|incoming| - 1]), existing, q, incoming[|incoming| - 1])
  }

  /** The option table once the options of `q` the incoming list does not mention are removed. */
  function Pruned(s: Store, q: int, incoming: seq<OptionInput>): Staged
  {
    Staged(Without(s.options, OptionsOf(s, q) - IncomingIds(incoming)), s.nextId)
  }

  /** The store UpdateQuestion hands to SaveChanges for question `q`. */
  function UpdatedStore(s: Store, q: int, body: QuestionInput): (t: Store)
    ensures t.users == s.users && t.courses == s.courses && t.enrollments == s.enrollments
    ensures t.assessments == s.assessments && t.answers == s.answers
    ensures t.questions.Keys == s.questions.Keys + {q}
    ensures forall k :: k in s.questions && k != q ==> t.questions[k] == s.questions[k]
    ensures s.nextId <= t.nextId
  {
    var incoming := Incoming(body);
    var st := Reconcile(Pruned(s, q, incoming), OptionsOf(s, q), q, incoming);
    s.(questions := s.questions[q := Question(body.text, body.questionType, body.assessmentId)],
       options := st.options, nextId := st.nextId)
  }

  /** Each new option takes one identity value; no key outside the old table, the edited ids and the fresh range appears. */
  lemma {:induction false} ReconcileFresh(st: Staged, existing: set<int>, q: int, incoming: seq<OptionInput>)
    ensures var r := Reconcile(st, existing, q, incoming);
      && r.nextId == st.nextId + Zeros(incoming)
      && forall k :: k in r.options ==> k in st.options || k in existing || st.nextId <= k < r.nextId
    decreases |incoming|
  {
    if incoming != [] {
      ReconcileFresh(st, existing, q, incoming[..|incoming| - 1]);
    }
  }

  /** An earlier id that is not an edited existing option keeps its row, or its absence. */
  lemma {:induction false} ReconcileKeeps(st: Staged, existing: set<int>, q: int, incoming: seq<OptionInput>, k: int)
    requires k < st.nextId
    requires k !in existing || k !in IncomingIds(incoming)
    ensures var r := Reconcile(st, existing, q, incoming);
      && (k in r.options <==> k in st.options)
      && (k in st.options ==> r.options[k] == st.options[k])
    decreases |incoming|
  {
    if incoming != [] {
      var prefix := incoming[..|incoming| - 1];
      var u := incoming[|incoming| - 1];
      assert u.id in IncomingIds(incoming);
      assert IncomingIds(prefix) <= IncomingIds(incoming) by {
        forall x | x in IncomingIds(prefix) ensures x in IncomingIds(incoming) {
          var v :| v in prefix && v.id == x;
          assert v in incoming;
        }
      }
      ReconcileKeeps(st, existing, q, prefix, k);
      ReconcileFresh(st, existing, q, prefix);
    }
  }

  /** Entry `i` of a list counts towards the zeros of every longer prefix. */
  lemma {:induction false} ZerosGrow(xs: seq<OptionInput>, i: int)
    requires 0 <= i < |xs| && xs[i].id == 0
    ensures Zeros(xs[..i]) < Zeros(xs)
    decreases |xs|
  {
    var n := |xs| - 1;
    if i < n {
      assert xs[..n][..i] == xs[..i];
      ZerosGrow(xs[..n], i);
    } else {
      assert xs[..n] == xs[..i];
    }
  }

  /** The i-th incoming option with id 0 becomes a new option of `q` under the id after those of the earlier new ones. */
  lemma {:induction false} ReconcileAdds(st: Staged, existing: set<int>, q: int, incoming: seq<OptionInput>, i: int)
    requires forall e :: e in existing ==> e < st.nextId
    requires 0 <= i < |incoming| && incoming[i].id == 0
    ensures var k := st.nextId + Zeros(incoming[..i]);
      var r := Reconcile(st, existing, q, incoming);
      k in r.options && r.options[k] == Option(incoming[i].text, incoming[i].isCorrect, q)
    decreases |incoming|
  {
    var n := |incoming| - 1;
    var prefix := incoming[..n];
    ReconcileFresh(st, existing, q, prefix);
    if i == n {
      assert prefix == incoming[..i];
    } else {
      assert prefix[..i] == incoming[..i];
      ReconcileAdds(st, existing, q, prefix, i);
      ZerosGrow(prefix, i);
    }
  }

  /** The last incoming entry for an existing option's id decides its new values. */
  lemma {:induction false} ReconcileOverwrites(st: Staged, existing: set<int>, q: int, incoming: seq<OptionInput>, i: int)
    requires forall e :: e in existing ==> 0 < e < st.nextId
    requires 0 <= i < |incoming| && incoming[i].id in existing
    requires forall j :: i < j < |incoming| ==> incoming[j].id != incoming[i].id
    ensures var r := Reconcile(st, existing, q, incoming);
      var u := incoming[i];
      u.id in r.options && r.options[u.id] == Option(u.text, u.isCorrect, u.questionId)
    decreases |incoming|
  {
    var n := |incoming| - 1;
    var prefix := incoming[..n];
    ReconcileFresh(st, existing, q, prefix);
    if i < n {
      ReconcileOverwrites(st, existing, q, prefix, i);
    }
  }

  /** Rows whose QuestionId lies in `qs` stay so, when `q` and every overwriting QuestionId do. */
  lemma {:induction false} ReconcileOwned(st: Staged, existing: set<int>, q: int, incoming: seq<OptionInput>, qs: set<int>)
    requires q in qs
    requires forall k :: k in st.options ==> st.options[k].questionId in qs
    requires forall u :: u in incoming && u.id in existing ==> u.questionId in qs
    ensures var r := Reconcile(st, existing, q, incoming);
      forall k :: k in r.options ==> r.options[k].questionId in qs
    decreases |incoming|
  {
    if incoming != [] {
      var prefix := incoming[..|incoming| - 1];
      forall u | u in prefix && u.id in existing ensures u.questionId in qs {
        assert u in incoming;
      }
      ReconcileOwned(st, existing, q, prefix, qs);
      assert forall k :: k in Reconcile(st, existing, q, prefix).options ==>
        Reconcile(st, existing, q, prefix).options[k].questionId in qs;
      assert incoming[|incoming| - 1] in incoming;
    }
  }

  /** The update leaves identity keys in range, with one new identity value per new option. */
  lemma UpdatedStoreIdentity(s: Store, q: int, body: QuestionInput)
    requires Valid(s) && q in s.questions
    ensures var t := UpdatedStore(s, q, body);
      && IdentityOk(t) && EnrollmentKeysMatch(t)
      && t.nextId == s.nextId + Zeros(Incoming(body))
      && forall k :: k in t.options && k !in s.options ==> s.nextId <= k < t.nextId
  {
    var incoming := Incoming(body);
    ReconcileFresh(Pruned(s, q, incoming), OptionsOf(s, q), q, incoming);
  }

  /** An existing option of the question whose id the incoming list lacks is removed. */
  lemma UpdateRemovesDropped(s: Store, q: int, body: QuestionInput, o: int)
    requires Valid(s)
    requires o in OptionsOf(s, q) && o !in IncomingIds(Incoming(body))
    ensures o !in UpdatedStore(s, q, body).options
  {
    var incoming := Incoming(body);
    ReconcileKeeps(Pruned(s, q, incoming), OptionsOf(s, q), q, incoming, o);
  }

  /** A missing option list removes every option of the question and adds none. */
  lemma UpdateNullRemovesAll(s: Store, q: int, body: QuestionInput)
    requires body.options.Null?
    ensures OptionsOf(UpdatedStore(s, q, body), q) == {}
    ensures UpdatedStore(s, q, body).nextId == s.nextId
  {
    assert IncomingIds([]) == {};
  }

  /** The i-th incoming option with id 0 is inserted for the question under a fresh id. */
  lemma UpdateAddsNew(s: Store, q: int, body: QuestionInput, i: int)
    requires Valid(s)
    requires 0 <= i < |Incoming(body)| && Incoming(body)[i].id == 0
    ensures var k := s.nextId + Zeros(Incoming(body)[..i]);
      var t := UpdatedStore(s, q, body);
      var u := Incoming(body)[i];
      k !in s.options && k in t.options && t.options[k] == Option(u.text, u.isCorrect, q)
  {
    var incoming := Incoming(body);
    ReconcileAdds(Pruned(s, q, incoming), OptionsOf(s, q), q, incoming, i);
  }

  /** An existing option of the question takes the values of the last incoming entry with its id. */
  lemma UpdateOverwrites(s: Store, q: int, body: QuestionInput, i: int)
    requires Valid(s)
    requires 0 <= i < |Incoming(body)| && Incoming(body)[i].id in OptionsOf(s, q)
    requires forall j :: i < j < |Incoming(body)| ==> Incoming(body)[j].id != Incoming(body)[i].id
    ensures var t := UpdatedStore(s, q, body);
      var u := Incoming(body)[i];
      u.id in t.options && t.options[u.id] == Option(u.text, u.isCorrect, u.questionId)
  {
    var incoming := Incoming(body);
    ReconcileOverwrites(Pruned(s, q, incoming), OptionsOf(s, q), q, incoming, i);
  }

  /**
   * Every id below the identity counter that is not an option of the question
   * keeps its row, or its absence: options of other questions are untouched
   * and an unknown nonzero id creates nothing.
   */
  lemma UpdateKeepsOthers(s: Store, q: int, body: QuestionInput, k: int)
    requires Valid(s)
    requires k < s.nextId && k !in OptionsOf(s, q)
    ensures var t := UpdatedStore(s, q, body);
      && (k in t.options <==> k in s.options)
      && (k in s.options ==> t.options[k] == s.options[k])
  {
    var incoming := Incoming(body);
    ReconcileKeeps(Pruned(s, q, incoming), OptionsOf(s, q), q, incoming, k);
  }

  /** The save succeeds when every overwritten option names an existing question. */
  lemma UpdateSaves(s: Store, q: int, body: QuestionInput)
    requires Valid(s) && q in s.questions && body.assessmentId == s.questions[q].assessmentId
    requires forall u :: u in Incoming(body) && u.id in OptionsOf(s, q) ==> u.questionId in s.questions
    ensures Consistent(UpdatedStore(s, q, body))
  {
    var incoming := Incoming(body);
    ReconcileOwned(Pruned(s, q, incoming), OptionsOf(s, q), q, incoming, s.questions.Keys);
    assert forall k :: k in Reconcile(Pruned(s, q, incoming), OptionsOf(s, q), q, incoming).options ==>
      Reconcile(Pruned(s, q, incoming), OptionsOf(s, q), q, incoming).options[k].questionId in s.questions;
  }

  /** The save fails when the last entry for an existing option names a missing question. */
  lemma UpdateSaveFails(s: Store, q: int, body: QuestionInput, i: int)
    requires Valid(s)
    requires 0 <= i < |Incoming(body)| && Incoming(body)[i].id in OptionsOf(s, q)
    requires forall j :: i < j < |Incoming(body)| ==> Incoming(body)[j].id != Incoming(body)[i].id
    requires Incoming(body)[i].questionId !in s.questions && Incoming(body)[i].questionId != q
    ensures !Consistent(UpdatedStore(s, q, body))
  {
    UpdateOverwrites(s, q, body, i);
  }

  /**
   * UpdateQuestion: BadRequest on a question-id or assessment-id mismatch or
   * blank text, NotFound unless the question belongs to the assessment;
   * otherwise the question's values are overwritten and its options
   * reconciled with the incoming list, all in one save, which fails with a
   * server error when an overwritten option names a missing question.
   */
  method UpdateQuestion(db: EduSyncContext, a: int, q: int, body: QuestionInput) returns (r: Result<(), Status>)
    requires db.Valid()
    modifies db
    ensures db.Valid()
    ensures q != body.id || a != body.assessmentId || IsBlankNet(body.text) ==> r == Err(BadRequest)
    ensures q == body.id && a == body.assessmentId && !IsBlankNet(body.text) ==>
      if q in old(db.questions) && old(db.questions)[q].assessmentId == a
      then r == (if Consistent(UpdatedStore(old(db.State()), q, body)) then Ok(()) else Err(ServerError))
      else r == Err(NotFound)
    ensures r.Err? ==> db.State() == old(db.State())
    ensures r.Ok? ==> db.State() == UpdatedStore(old(db.State()), q, body)
  {
    if q != body.id || a != body.assessmentId || IsBlankNet(body.text) {
      return Err(BadRequest);
    }
    var s := db.State();
    if !(q in s.questions && s.questions[q].assessmentId == a) {
      return Err(NotFound);
    }
    var existing := OptionsOf(s, q);
    var incoming := Incoming(body);
    var ids := IncomingIds(incoming);
    // remove the existing options the incoming list does not mention
    var options := s.options;
    var todo := existing;
    while todo != {}
      invariant db.Valid() && db.State() == s
      invariant todo <= existing
      invariant options == Without(s.options, (existing - todo) - ids)
      decreases todo
    {
      var o := Pick(todo);
      if o !in ids {
        options := options - {o};
      }
      todo := todo - {o};
    }
    assert (existing - {}) - ids == existing - ids;
    // add, overwrite or ignore each incoming option in list order
    var st := Staged(options, s.nextId);
    var i := 0;
    while i < |incoming|
      invariant 0 <= i <= |incoming|
      invariant st == Reconcile(Pruned(s, q, incoming), existing, q, incoming[..i])
    {
      assert incoming[..i + 1][..i] == incoming[..i];
      st := ReconcileStep(st, existing, q, incoming[i]);
      i := i + 1;
    }
    assert incoming[..|incoming|] == incoming;
    UpdatedStoreIdentity(s, q, body);
    var saved := db.SaveChanges(s.(questions := s.questions[q := Question(body.text, body.questionType, body.assessmentId)],
                                   options := st.options, nextId := st.nextId));
    if !saved {
      return Err(ServerError);
    }
    r := Ok(());
  }
}
