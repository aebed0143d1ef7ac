/**
 * Edusync_frontend/src/components/StudentAssessment.js: the student's answer
 * sheet — its initial state, answer changes, the checkbox toggle, and the
 * completeness check before submission.
 */
module StudentAssessment {
  import opened Models
  import opened Sequences

  const MultipleChoice: string := "MultipleChoice"

  /** An answer: the checked option ids of a multiple-choice question, or a typed text. */
  datatype Answer = Choices(ids: seq<string>) | Text(value: string)

  /** A question as the sheet sees it. */
  datatype QuestionCard = QuestionCard(id: int, questionType: string)

  /** The empty answer of a question type: no checked option, or empty text. */
  function BlankAnswer(questionType: string): (a: Answer)
    ensures a.Choices? <==> questionType == MultipleChoice
    ensures a == Choices([]) || a == Text("")
  {
    if questionType == MultipleChoice then Choices([]) else Text("")
  }

  /** No two questions share an id. */
  predicate UniqueIds(qs: seq<QuestionCard>)
  {
    forall i, j :: 0 <= i < j < |qs| ==> qs[i].id != qs[j].id
  }

  /** Every answer present for a question has its type's shape: choices for multiple choice, text otherwise. */
  predicate WellShaped(qs: seq<QuestionCard>, answers: map<int, Answer>)
  {
    forall i :: 0 <= i < |qs| && qs[i].id in answers ==>
      (answers[qs[i].id].Choices? <==> qs[i].questionType == MultipleChoice)
  }

  /** The initial answer map, built question by question; a later question with the same id overwrites the entry. */
  function InitialMap(qs: seq<QuestionCard>): map<int, Answer>
    decreases |qs|
  {
    if qs == [] then map[]
    else InitialMap(qs[..|qs| - 1])[qs[|qs| - 1].id := BlankAnswer(qs[|qs| - 1].questionType)]
  }

  /** The map has an entry for exactly the questions' ids. */
  lemma {:induction false} InitialMapKeys(qs: seq<QuestionCard>)
    ensures forall k :: k in InitialMap(qs) <==> exists i :: 0 <= i < |qs| && qs[i].id == k
    decreases |qs|
  {
    if qs != [] {
      var init := qs[..|qs| - 1];
      InitialMapKeys(init);
      forall k | k in InitialMap(qs) ensures exists i :: 0 <= i < |qs| && qs[i].id == k {
        if k != qs[|qs| - 1].id {
          assert k in InitialMap(init);
          var i :| 0 <= i < |init| && init[i].id == k;
          assert qs[i].id == k;
        }
      }
      forall k | exists i :: 0 <= i < |qs| && qs[i].id == k ensures k in InitialMap(qs) {
        var i :| 0 <= i < |qs| && qs[i].id == k;
        if i < |qs| - 1 {
          assert init[i].id == k;
        }
      }
    }
  }

  /** With distinct ids, every question starts with its type's empty answer. */
  lemma {:induction false} InitialMapBlank(qs: seq<QuestionCard>)
    requires UniqueIds(qs)
    ensures forall i :: 0 <= i < |qs| ==> qs[i].id in InitialMap(qs) && InitialMap(qs)[qs[i].id] == BlankAnswer(qs[i].questionType)
    decreases |qs|
  {
    if qs != [] {
      var init := qs[..|qs| - 1];
      InitialMapBlank(init);
      forall i | 0 <= i < |qs|
        ensures qs[i].id in InitialMap(qs) && InitialMap(qs)[qs[i].id] == BlankAnswer(qs[i].questionType)
      {
        if i < |qs| - 1 {
          assert init[i] == qs[i];
        }
      }
    }
  }

  /**
   * The initial answer map: every question's id mapped to its type's empty
   * answer, filled in one question at a time.
   */
  method InitialAnswers(qs: seq<QuestionCard>) returns (answers: map<int, Answer>)
    ensures answers == InitialMap(qs)
    ensures forall k :: k in answers <==> exists i :: 0 <= i < |qs| && qs[i].id == k
    ensures UniqueIds(qs) ==> forall i :: 0 <= i < |qs| ==> answers[qs[i].id] == BlankAnswer(qs[i].questionType)
    ensures UniqueIds(qs) ==> WellShaped(qs, answers)
  {
    answers := map[];
    var n := 0;
    while n < |qs|
      invariant 0 <= n <= |qs|
      invariant answers == InitialMap(qs[..n])
    {
      assert qs[..n + 1][..n] == qs[..n];
      answers := answers[qs[n].id := BlankAnswer(qs[n].questionType)];
      n := n + 1;
    }
    assert qs[..n] == qs;
    InitialMapKeys(qs);
    if UniqueIds(qs) {
      InitialMapBlank(qs);
    }
  }

  /**
   * handleAnswerChange: a multiple-choice question stores a list, a single
   * value wrapped as a one-element list; any other question stores the value
   * as given. Only that question's entry changes.
   */
  function AnswerChange(answers: map<int, Answer>, questionId: int, value: Answer, questionType: string)
    : (r: map<int, Answer>)
    ensures r.Keys == answers.Keys + {questionId}
    ensures forall k :: k in answers && k != questionId ==> r[k] == answers[k]
    ensures questionType == MultipleChoice ==> r[questionId].Choices?
    ensures questionType == MultipleChoice && value.Choices? ==> r[questionId] == value
    ensures questionType == MultipleChoice && value.Text? ==> r[questionId] == Choices([value.value])
    ensures questionType != MultipleChoice ==> r[questionId] == value
  {
    if questionType == MultipleChoice then
      answers[questionId := match value case Choices(_) => value case Text(v) => Choices([v])]
    else
      answers[questionId := value]
  }

  /** A change keeps the sheet well shaped when a non-multiple-choice question receives text. */
  lemma AnswerChangeKeepsShape(qs: seq<QuestionCard>, answers: map<int, Answer>, i: int, value: Answer)
    requires UniqueIds(qs) && WellShaped(qs, answers) && 0 <= i < |qs|
    requires qs[i].questionType != MultipleChoice ==> value.Text?
    ensures WellShaped(qs, AnswerChange(answers, qs[i].id, value, qs[i].questionType))
  {
  }

  /** The checked ids of a question, as the checkbox handler reads them; no list counts as none. */
  function CurrentChoices(answers: map<int, Answer>, questionId: int): seq<string>
  {
    if questionId in answers && answers[questionId].Choices? then answers[questionId].ids else []
  }

  /** Checking an option appends its id. */
  function Check(current: seq<string>, optionId: string): (r: seq<string>)
    ensures |r| == |current| + 1 && r[..|current|] == current && r[|current|] == optionId
  {
    current + [optionId]
  }

  /** Unchecking an option removes every occurrence of its id and keeps the rest in order. */
  function Uncheck(current: seq<string>, optionId: string): (r: seq<string>)
    ensures optionId !in r
    ensures forall x :: x in r <==> x in current && x != optionId
  {
    var r := Filter(current, (x: string) => x != optionId);
    forall x ensures x in r <==> x in current && x != optionId {
      FilterMembers(current, (x: string) => x != optionId, x);
    }
    r
  }

  /** Unchecking right after checking leaves the list as unchecking alone would. */
  lemma UncheckUndoesCheck(current: seq<string>, optionId: string)
    ensures Uncheck(Check(current, optionId), optionId) == Uncheck(current, optionId)
  {
    FilterConcat(current, [optionId], (x: string) => x != optionId);
    assert Filter([optionId], (x: string) => x != optionId) == [];
  }

  /** Unchecking an option that is not checked changes nothing. */
  lemma UncheckAbsent(current: seq<string>, optionId: string)
    requires optionId !in current
    ensures Uncheck(current, optionId) == current
  {
    FilterAll(current, (x: string) => x != optionId);
  }

  /**
   * A question the submit check counts as unanswered: for multiple choice, a
   * missing answer, an empty list or empty text; otherwise a missing answer
   * or text that is empty after trimming.
   */
  predicate Unanswered(q: QuestionCard, answers: map<int, Answer>): (b: bool)
    ensures q.id !in answers || answers[q.id] == Text("") ==> b
    ensures b && q.id in answers ==> answers[q.id] == Choices([]) || answers[q.id].Text?
  {
    if q.questionType == MultipleChoice then
      q.id !in answers || answers[q.id] == Choices([]) || answers[q.id] == Text("")
    else
      q.id !in answers || (answers[q.id].Text? && IsBlankJs(answers[q.id].value))
  }

  /** A non-multiple-choice question holding a list: the check calls trim on it and fails. */
  predicate Malformed(q: QuestionCard, answers: map<int, Answer>): (b: bool)
    ensures b ==> !Unanswered(q, answers)
    ensures WellShaped([q], answers) ==> !b
  {
    assert [q][0] == q;
    q.questionType != MultipleChoice && q.id in answers && answers[q.id].Choices?
  }

  /** What handleSubmit does: fail, refuse with a message, or send the sheet. */
  datatype SubmitOutcome = Failed | NotAllAnswered | Submitted(answers: map<int, Answer>)

  /** handleSubmit: the sheet is sent only when no question is unanswered. */
  function HandleSubmit(qs: seq<QuestionCard>, answers: map<int, Answer>): (r: SubmitOutcome)
    ensures r.Submitted? <==> forall i :: 0 <= i < |qs| ==> !Unanswered(qs[i], answers) && !Malformed(qs[i], answers)
    ensures r.Submitted? ==> r.answers == answers
    ensures r == Failed <==> exists i :: 0 <= i < |qs| && Malformed(qs[i], answers)
  {
    var malformed := Filter(qs, (q: QuestionCard) => Malformed(q, answers));
    var unanswered := Filter(qs, (q: QuestionCard) => Unanswered(q, answers));
    FilterEmpty(qs, (q: QuestionCard) => Malformed(q, answers));
    FilterEmpty(qs, (q: QuestionCard) => Unanswered(q, answers));
    if |malformed| > 0 then Failed
    else if |unanswered| > 0 then NotAllAnswered
    else Submitted(answers)
  }

  /** A well-shaped sheet never fails the check. */
  lemma WellShapedNeverFails(qs: seq<QuestionCard>, answers: map<int, Answer>)
    requires WellShaped(qs, answers)
    ensures HandleSubmit(qs, answers) != Failed
  {
  }

  /** A fresh sheet of a non-empty assessment cannot be submitted: every question starts unanswered. */
  lemma FreshSheetNotSubmitted(qs: seq<QuestionCard>, answers: map<int, Answer>)
    requires qs != []
    requires forall i :: 0 <= i < |qs| ==> qs[i].id in answers && answers[qs[i].id] == BlankAnswer(qs[i].questionType)
    ensures HandleSubmit(qs, answers) == NotAllAnswered
  {
    assert Unanswered(qs[0], answers);
  }
}
