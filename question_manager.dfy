/**
 * Edusync_frontend/src/components/QuestionManager.js: the educator's question
 * editor — form checks, the payloads sent to the question endpoints, and the
 * edits of the option list.
 */
module QuestionManager {
  import opened Models
  import opened Sequences
  import AssessmentsController

  const MultipleChoice: string := "MultipleChoice"

  /** An option row of the add or edit form; rows loaded from the server carry their id, new rows none or 0. */
  datatype FormOption = FormOption(id: Nullable<int>, text: string, isCorrect: bool)

  /** The messages the form shows instead of sending. */
  datatype FormError = EmptyText | NoOptions | NoCorrectOption

  /** An option row with text other than whitespace; only those are sent. */
  predicate Filled(o: FormOption)
  {
    !IsBlankJs(o.text)
  }

  /**
   * The check of handleAddQuestion and handleUpdateQuestion as written: text
   * must not be blank; a multiple-choice question needs a filled option and
   * an option marked correct, counted over all rows, filled or not.
   */
  function CheckAsWritten(text: string, questionType: string, options: seq<FormOption>): (r: Result<(), FormError>)
    ensures IsBlankJs(text) ==> r == Err(EmptyText)
    ensures !IsBlankJs(text) && questionType != MultipleChoice ==> r == Ok(())
    ensures !IsBlankJs(text) && questionType == MultipleChoice ==>
      (r.Ok? <==> (exists o :: o in options && Filled(o)) && (exists o :: o in options && o.isCorrect))
  {
    if IsBlankJs(text) then Err(EmptyText)
    else if questionType == MultipleChoice && |Filter(options, Filled)| == 0 then
      FilterEmpty(options, Filled);
      Err(NoOptions)
    else if questionType == MultipleChoice && |Filter(options, (o: FormOption) => o.isCorrect)| == 0 then
      FilterEmpty(options, (o: FormOption) => o.isCorrect);
      Err(NoCorrectOption)
    else
      FilterEmpty(options, Filled);
      FilterEmpty(options, (o: FormOption) => o.isCorrect);
      Ok(())
  }

  /** The options a question sends: the filled rows in form order for multiple choice, none otherwise. */
  function SentOptions(questionType: string, options: seq<FormOption>): (r: seq<FormOption>)
    ensures questionType != MultipleChoice ==> r == []
    ensures forall o :: o in r ==> Filled(o) && o in options
  {
    if questionType == MultipleChoice then
      var sent := Filter(options, Filled);
      forall o | o in sent ensures Filled(o) && o in options {
        FilterMembers(options, Filled, o);
      }
      sent
    else []
  }

  /** Every filled row of a multiple-choice form is sent, and rows keep their relative order. */
  lemma SentOptionsKeepsFilled(options: seq<FormOption>, more: seq<FormOption>, o: FormOption)
    ensures o in options && Filled(o) ==> o in SentOptions(MultipleChoice, options)
    ensures SentOptions(MultipleChoice, options + more) == SentOptions(MultipleChoice, options) + SentOptions(MultipleChoice, more)
  {
    FilterMembers(options, Filled, o);
    FilterConcat(options, more, Filled);
  }

  /**
   * As written, the check accepts a multiple-choice question whose only
   * correct row holds a single space, which the inputs' `required` attribute
   * lets through; that row is dropped before sending, so the question is
   * saved without a correct option.
   */
  lemma CheckAsWrittenAdmitsNoCorrect()
    ensures var options := [FormOption(Null, "A", false), FormOption(Null, " ", true)];
      && CheckAsWritten("Q", MultipleChoice, options) == Ok(())
      && SentOptions(MultipleChoice, options) == [FormOption(Null, "A", false)]
      && forall o :: o in SentOptions(MultipleChoice, options) ==> !o.isCorrect
  {
    var options := [FormOption(Null, "A", false), FormOption(Null, " ", true)];
    assert !IsBlankJs("Q") by { assert !IsSpaceJs("Q"[0]); }
    assert Filled(options[0]) by { assert !IsSpaceJs(options[0].text[0]); }
    assert !Filled(options[1]) by { assert IsSpaceJs(options[1].text[0]); }
    assert options[..1] == [options[0]];
    assert Filter(options[..1], Filled) == [options[0]] by {
      assert options[..1][..0] == [];
    }
    assert options[1] in options;
  }

  /** The intended check: a multiple-choice question needs a filled row that is marked correct. */
  function Check(text: string, questionType: string, options: seq<FormOption>): (r: Result<(), FormError>)
    ensures IsBlankJs(text) ==> r == Err(EmptyText)
    ensures !IsBlankJs(text) && questionType != MultipleChoice ==> r == Ok(())
    ensures !IsBlankJs(text) && questionType == MultipleChoice ==>
      (r.Ok? <==> exists o :: o in options && Filled(o) && o.isCorrect)
  {
    if IsBlankJs(text) then Err(EmptyText)
    else if questionType == MultipleChoice && |Filter(options, Filled)| == 0 then
      FilterEmpty(options, Filled);
      Err(NoOptions)
    else if questionType == MultipleChoice && |Filter(options, (o: FormOption) => Filled(o) && o.isCorrect)| == 0 then
      FilterEmpty(options, (o: FormOption) => Filled(o) && o.isCorrect);
      Err(NoCorrectOption)
    else
      FilterEmpty(options, (o: FormOption) => Filled(o) && o.isCorrect);
      Ok(())
  }

  /** A multiple-choice question that passes the intended check sends a correct option. */
  lemma CheckSendsCorrect(text: string, options: seq<FormOption>)
    requires Check(text, MultipleChoice, options).Ok?
    ensures exists o :: o in SentOptions(MultipleChoice, options) && o.isCorrect
  {
    var o :| o in options && Filled(o) && o.isCorrect;
    FilterMembers(options, Filled, o);
  }

  /** The intended check only rejects more than the written one. */
  lemma CheckRefinesAsWritten(text: string, questionType: string, options: seq<FormOption>)
    ensures Check(text, questionType, options).Ok? ==> CheckAsWritten(text, questionType, options).Ok?
  {
  }

  // ----- handleAddQuestion -----

  function ToNewOptions(sent: seq<FormOption>): (r: seq<AssessmentsController.NewOption>)
    ensures |r| == |sent|
    ensures forall i :: 0 <= i < |sent| ==> r[i] == AssessmentsController.NewOption(sent[i].text, sent[i].isCorrect)
  {
    seq(|sent|, i requires 0 <= i < |sent| => AssessmentsController.NewOption(sent[i].text, sent[i].isCorrect))
  }

  /** Sent rows become options with the same text and flag. */
  lemma NewOptionsFaithful(sent: seq<FormOption>)
    ensures (forall x :: x in sent ==> Filled(x)) ==> forall o :: o in ToNewOptions(sent) ==> !IsBlankJs(o.text)
    ensures (exists x :: x in sent && x.isCorrect) ==> exists o :: o in ToNewOptions(sent) && o.isCorrect
  {
    var r := ToNewOptions(sent);
    forall o | o in r && (forall x :: x in sent ==> Filled(x)) ensures !IsBlankJs(o.text) {
      var i :| 0 <= i < |r| && r[i] == o;
      assert sent[i] in sent;
    }
    if x :| x in sent && x.isCorrect {
      var i :| 0 <= i < |sent| && sent[i] == x;
      assert r[i] in r;
    }
  }

  /** A multiple-choice form that passes the written check sends at least one row. */
  lemma CheckAsWrittenSendsSome(text: string, options: seq<FormOption>)
    requires CheckAsWritten(text, MultipleChoice, options).Ok?
    ensures |SentOptions(MultipleChoice, options)| > 0
  {
    var o :| o in options && Filled(o);
    SentOptionsKeepsFilled(options, [], o);
  }

  /**
   * handleAddQuestion as written: after the written check, the question
   * posted to AddQuestions, with the filled rows as options for multiple
   * choice and none otherwise.
   */
  function HandleAddQuestion(text: string, questionType: string, options: seq<FormOption>)
    : (r: Result<AssessmentsController.NewQuestion, FormError>)
    ensures r.Err? <==> CheckAsWritten(text, questionType, options).Err?
    ensures r.Err? ==> r.error == CheckAsWritten(text, questionType, options).error
    ensures r.Ok? ==> r.value == AssessmentsController.NewQuestion(text, questionType, ToNewOptions(SentOptions(questionType, options)))
    ensures r.Ok? ==> !IsBlankJs(r.value.text) && forall o :: o in r.value.options ==> !IsBlankJs(o.text)
    ensures r.Ok? && questionType == MultipleChoice ==> |r.value.options| > 0
    ensures r.Ok? && questionType != MultipleChoice ==> r.value.options == []
  {
    match CheckAsWritten(text, questionType, options)
    case Err(e) => Err(e)
    case Ok(_) =>
      var sent := SentOptions(questionType, options);
      NewOptionsFaithful(sent);
      if questionType == MultipleChoice then
        CheckAsWrittenSendsSome(text, options);
        Ok(AssessmentsController.NewQuestion(text, questionType, ToNewOptions(sent)))
      else
        Ok(AssessmentsController.NewQuestion(text, questionType, ToNewOptions(sent)))
  }

  /**
   * handleAddQuestion with the intended check: it refuses more forms, posts
   * what the written handler posts otherwise, and a multiple-choice question
   * it posts always has a correct option.
   */
  function HandleAddQuestionChecked(text: string, questionType: string, options: seq<FormOption>)
    : (r: Result<AssessmentsController.NewQuestion, FormError>)
    ensures r.Err? <==> Check(text, questionType, options).Err?
    ensures r.Err? ==> r.error == Check(text, questionType, options).error
    ensures r.Ok? ==> r == HandleAddQuestion(text, questionType, options)
    ensures r.Ok? && questionType == MultipleChoice ==> exists o :: o in r.value.options && o.isCorrect
  {
    match Check(text, questionType, options)
    case Err(e) => Err(e)
    case Ok(_) =>
      CheckRefinesAsWritten(text, questionType, options);
      if questionType == MultipleChoice then
        CheckSendsCorrect(text, options);
        NewOptionsFaithful(SentOptions(questionType, options));
        HandleAddQuestion(text, questionType, options)
      else
        HandleAddQuestion(text, questionType, options)
  }

  /**
   * A question the form posts passes AddQuestions' own text check, unless
   * its text holds U+0085, which trim keeps and IsNullOrWhiteSpace skips.
   */
  lemma AddPayloadPassesServerCheck(text: string, questionType: string, options: seq<FormOption>)
    requires HandleAddQuestion(text, questionType, options).Ok?
    requires forall i :: 0 <= i < |text| ==> text[i] != '\U{85}'
    ensures AssessmentsController.AllTextsGiven([HandleAddQuestion(text, questionType, options).value])
  {
    var i :| 0 <= i < |text| && !IsSpaceJs(text[i]);
    SpaceNetVersusJs(text[i]);
  }

  /** The text U+0085 alone passes the form's check and is refused by AddQuestions. */
  lemma NextLineTextRefusedByServer()
    ensures HandleAddQuestion("\U{85}", "ShortAnswer", []).Ok?
    ensures !AssessmentsController.AllTextsGiven([HandleAddQuestion("\U{85}", "ShortAnswer", []).value])
  {
    assert !IsSpaceJs("\U{85}"[0]);
    assert IsSpaceNet("\U{85}"[0]);
    assert "ShortAnswer" != MultipleChoice by { assert "ShortAnswer"[0] != MultipleChoice[0]; }
    var q := HandleAddQuestion("\U{85}", "ShortAnswer", []).value;
    assert q.text == "\U{85}";
    assert IsBlankNet([q][0].text);
  }

  // ----- the edit form and handleUpdateQuestion -----

  /** The question being edited. */
  datatype EditForm = EditForm(id: int, text: string, questionType: string, assessmentId: int, options: seq<FormOption>)

  /** handleEditClick: the form holds a copy of the question, with one blank row when it came without an option list. */
  function EditClick(id: int, q: Question, options: Nullable<seq<FormOption>>): (f: EditForm)
    ensures f.id == id && f.text == q.text && f.questionType == q.questionType && f.assessmentId == q.assessmentId
    ensures options.Some? ==> f.options == options.value
    ensures options.Null? ==> f.options == [FormOption(Null, "", false)]
  {
    EditForm(id, q.text, q.questionType, q.assessmentId,
             match options case Some(list) => list case Null => [FormOption(Null, "", false)])
  }

  /** JavaScript's `id || 0`: a missing or zero id becomes 0, any other id is kept. */
  function IdOrZero(id: Nullable<int>): (r: int)
    ensures r != 0 ==> id == Some(r)
    ensures r == 0 <==> id.Null? || id.value == 0
  {
    if id.Some? && id.value != 0 then id.value else 0
  }

  function ToOptionInputs(sent: seq<FormOption>, questionId: int): (r: seq<AssessmentsController.OptionInput>)
    ensures |r| == |sent|
    ensures forall i :: 0 <= i < |sent| ==>
      r[i] == AssessmentsController.OptionInput(IdOrZero(sent[i].id), sent[i].text, sent[i].isCorrect, questionId)
  {
    seq(|sent|, i requires 0 <= i < |sent| =>
      AssessmentsController.OptionInput(IdOrZero(sent[i].id), sent[i].text, sent[i].isCorrect, questionId))
  }

  /** Sent rows become option bodies with their text and the given question id. */
  lemma OptionInputsFaithful(sent: seq<FormOption>, questionId: int)
    ensures (forall x :: x in sent ==> Filled(x)) ==>
      forall u :: u in ToOptionInputs(sent, questionId) ==> u.questionId == questionId && !IsBlankJs(u.text)
  {
    var r := ToOptionInputs(sent, questionId);
    forall u | u in r && (forall x :: x in sent ==> Filled(x)) ensures u.questionId == questionId && !IsBlankJs(u.text) {
      var i :| 0 <= i < |r| && r[i] == u;
      assert sent[i] in sent;
    }
  }

  /**
   * handleUpdateQuestion as written: no form or blank text is refused, then
   * the written check applies; the body sent to UpdateQuestion holds the
   * filled rows, each with its id or 0 and the edited question's id as
   * QuestionId, for multiple choice, and no options otherwise.
   */
  function HandleUpdateQuestion(form: Nullable<EditForm>): (r: Result<AssessmentsController.QuestionInput, FormError>)
    ensures form.Null? ==> r == Err(EmptyText)
    ensures form.Some? ==> (r.Err? <==> CheckAsWritten(form.value.text, form.value.questionType, form.value.options).Err?)
    ensures form.Some? && r.Err? ==> r.error == CheckAsWritten(form.value.text, form.value.questionType, form.value.options).error
    ensures r.Ok? ==> r.value.id == form.value.id && r.value.text == form.value.text
    ensures r.Ok? ==> r.value.questionType == form.value.questionType && r.value.assessmentId == form.value.assessmentId
    ensures r.Ok? ==> r.value.options == Some(ToOptionInputs(SentOptions(form.value.questionType, form.value.options), form.value.id))
    ensures r.Ok? ==> forall u :: u in AssessmentsController.Incoming(r.value) ==> u.questionId == form.value.id && !IsBlankJs(u.text)
  {
    if form.Null? then Err(EmptyText)
    else
      var f := form.value;
      match CheckAsWritten(f.text, f.questionType, f.options)
      case Err(e) => Err(e)
      case Ok(_) =>
        var sent := SentOptions(f.questionType, f.options);
        OptionInputsFaithful(sent, f.id);
        Ok(AssessmentsController.QuestionInput(f.id, f.text, f.questionType, f.assessmentId, Some(ToOptionInputs(sent, f.id))))
  }

  /**
   * handleUpdateQuestion with the intended check: it refuses more forms,
   * sends what the written handler sends otherwise, and a multiple-choice
   * body it sends always holds a correct option.
   */
  function HandleUpdateQuestionChecked(form: Nullable<EditForm>): (r: Result<AssessmentsController.QuestionInput, FormError>)
    ensures form.Null? ==> r == Err(EmptyText)
    ensures form.Some? ==> (r.Err? <==> Check(form.value.text, form.value.questionType, form.value.options).Err?)
    ensures r.Ok? ==> r == HandleUpdateQuestion(form)
    ensures r.Ok? && form.value.questionType == MultipleChoice ==>
      exists u :: u in AssessmentsController.Incoming(r.value) && u.isCorrect
  {
    if form.Null? then Err(EmptyText)
    else
      var f := form.value;
      match Check(f.text, f.questionType, f.options)
      case Err(e) => Err(e)
      case Ok(_) =>
        CheckRefinesAsWritten(f.text, f.questionType, f.options);
        if f.questionType == MultipleChoice then
          CheckSendsCorrect(f.text, f.options);
          var sent := SentOptions(f.questionType, f.options);
          var x :| x in sent && x.isCorrect;
          var i :| 0 <= i < |sent| && sent[i] == x;
          assert ToOptionInputs(sent, f.id)[i].isCorrect;
          HandleUpdateQuestion(form)
        else
          HandleUpdateQuestion(form)
  }

  /**
   * A body the edit form sends for a question that exists in its assessment
   * always passes the database's check when UpdateQuestion saves it: every
   * overwritten option keeps that question as its QuestionId.
   */
  lemma UpdatePayloadSaves(s: Store, form: EditForm)
    requires Valid(s)
    requires HandleUpdateQuestion(Some(form)).Ok?
    requires form.id in s.questions && s.questions[form.id].assessmentId == form.assessmentId
    ensures Consistent(AssessmentsController.UpdatedStore(s, form.id, HandleUpdateQuestion(Some(form)).value))
  {
    AssessmentsController.UpdateSaves(s, form.id, HandleUpdateQuestion(Some(form)).value);
  }

  // ----- option-list edits -----

  /** handleRemoveOption and handleRemoveEditOption: drop the row at `index`. */
  function RemoveOption(options: seq<FormOption>, index: int): (r: seq<FormOption>)
    ensures 0 <= index < |options| ==> |r| == |options| - 1
    ensures 0 <= index < |options| ==> forall i :: 0 <= i < index ==> r[i] == options[i]
    ensures 0 <= index < |options| ==> forall i :: index <= i < |r| ==> r[i] == options[i + 1]
    ensures !(0 <= index < |options|) ==> r == options
  {
    if 0 <= index < |options| then options[..index] + options[index + 1..] else options
  }

  /** handleAddOption: append one blank row, not marked correct. */
  function AddOption(options: seq<FormOption>): (r: seq<FormOption>)
    ensures |r| == |options| + 1 && r[..|options|] == options
    ensures r[|options|].text == "" && !r[|options|].isCorrect
  {
    options + [FormOption(Null, "", false)]
  }

  /** handleAddEditOption: append one blank row with id 0, so the server inserts it. */
  function AddEditOption(options: seq<FormOption>): (r: seq<FormOption>)
    ensures |r| == |options| + 1 && r[..|options|] == options
    ensures r[|options|].text == "" && !r[|options|].isCorrect && IdOrZero(r[|options|].id) == 0
  {
    options + [FormOption(Some(0), "", false)]
  }

  /** Removing the row just added gives the list back. */
  lemma AddThenRemove(options: seq<FormOption>)
    ensures RemoveOption(AddOption(options), |options|) == options
    ensures RemoveOption(AddEditOption(options), |options|) == options
  {
    assert AddOption(options)[..|options|] == options;
    assert AddEditOption(options)[..|options|] == options;
  }

  /** The field a change handler sets: the text or the correct flag. */
  datatype OptionChange = SetText(text: string) | SetCorrect(isCorrect: bool)

  function Apply(o: FormOption, change: OptionChange): FormOption
  {
    match change
    case SetText(t) => o.(text := t)
    case SetCorrect(b) => o.(isCorrect := b)
  }

  /** handleNewOptionChange and handleEditOptionChange: change one field of the row at `index`. */
  function ChangeOption(options: seq<FormOption>, index: int, change: OptionChange): (r: seq<FormOption>)
    ensures |r| == |options|
    ensures forall i :: 0 <= i < |options| && i != index ==> r[i] == options[i]
    ensures 0 <= index < |options| ==> r[index] == Apply(options[index], change)
  {
    seq(|options|, i requires 0 <= i < |options| => if i == index then Apply(options[i], change) else options[i])
  }

  /** A change keeps every row's id, so edited rows still overwrite their options on the server. */
  lemma ChangeKeepsIds(options: seq<FormOption>, index: int, change: OptionChange)
    ensures forall i :: 0 <= i < |options| ==> ChangeOption(options, index, change)[i].id == options[i].id
  {
    forall i | 0 <= i < |options| ensures ChangeOption(options, index, change)[i].id == options[i].id {
      if i == index {
        match change {
          case SetText(_) =>
          case SetCorrect(_) =>
        }
      }
    }
  }

  /**
   * The type selector of the edit form: switching to multiple choice keeps the
   * rows when there are any and otherwise starts one blank row with id 0;
   * switching to another type clears them.
   */
  function SwitchType(form: EditForm, newType: string): (f: EditForm)
    ensures f.questionType == newType && f.id == form.id && f.text == form.text && f.assessmentId == form.assessmentId
    ensures newType != MultipleChoice ==> f.options == []
    ensures newType == MultipleChoice && |form.options| > 0 ==> f.options == form.options
    ensures newType == MultipleChoice && |form.options| == 0 ==> f.options == [FormOption(Some(0), "", false)]
  {
    form.(questionType := newType,
          options := if newType == MultipleChoice then
                       (if |form.options| > 0 then form.options else [FormOption(Some(0), "", false)])
                     else [])
  }

  /** After switching to another type, the update sends an empty option list, so the server drops every option. */
  lemma SwitchAwayClearsOptions(form: EditForm, newType: string)
    requires newType != MultipleChoice
    requires HandleUpdateQuestion(Some(SwitchType(form, newType))).Ok?
    ensures AssessmentsController.Incoming(HandleUpdateQuestion(Some(SwitchType(form, newType))).value) == []
  {
  }
}
