/** `createResponse` (`server/controllers/responseController.js`): check the
    respondent, find the form, score every submitted answer against the
    form's questions, and build and validate the response document. The
    form is the result of the lookup by `formId` (with its questions
    populated); saving is the document validation of the response model. */
module ResponseController {
  import opened Common
  import opened JsValues
  import JsObject
  import opened QuestionModel
  import opened ResponseModel
  import opened Scoring

  /** One element of `req.body.answers` as the loop body reads it: a
      `null` element, whose `questionId` cannot be read, or any other value.
      `questionId` is `None` when it is absent or not a string (it then
      equals no question id under `===`); an absent or `null` answer is
      `JNull`. */
  datatype SubmittedAnswer =
    | NullElement
    | SubmittedAnswer(questionId: Option<string>, answer: Json)

  /** The request body; `answers`, `userId` and `userEmail` are the JSON
      values sent, `JNull` when absent. */
  datatype Submission = Submission(
    formId: string,
    answers: Json,
    userId: Json,
    userEmail: Json)

  /** `!userId || !userEmail` does not hold: both user fields are truthy. */
  predicate HasUser(sub: Submission) {
    Truthy(sub.userId) && Truthy(sub.userEmail)
  }

  /** An element as the loop body reads it: `null` stays a `null` element;
      of any other value `submittedAnswer.questionId` and
      `submittedAnswer.answer` are an object's own fields, and a number, a
      boolean, a string or an array has neither. */
  function AsSubmitted(v: Json): (a: SubmittedAnswer)
    ensures a.NullElement? <==> v == JNull
    ensures v != JNull && !v.JObj? ==> a == SubmittedAnswer(None, JNull)
    ensures v.JObj? ==> a.answer == JsObject.Get(v.fields, "answer").GetOr(JNull)
    ensures a.SubmittedAnswer? && a.questionId.Some? <==> v.JObj? && JsObject.Get(v.fields, "questionId").Some? && JsObject.Get(v.fields, "questionId").value.JStr?
    ensures a.SubmittedAnswer? && a.questionId.Some? ==> JsObject.Get(v.fields, "questionId") == Some(JStr(a.questionId.value))
  {
    if v == JNull then NullElement
    else if v.JObj? then
      var id := JsObject.Get(v.fields, "questionId");
      SubmittedAnswer(if id.Some? && id.value.JStr? then Some(id.value.s) else None, JsObject.Get(v.fields, "answer").GetOr(JNull))
    else SubmittedAnswer(None, JNull)
  }

  /** The elements `for (const submittedAnswer of answers)` visits, as the
      loop body reads them. `None` when the loop cannot start: `answers` is
      absent, `null` or not iterable (a number, a boolean, a plain object).
      A string is iterable: each of its characters cites no question. */
  function AnswerList(answers: Json): (r: Option<seq<SubmittedAnswer>>)
    ensures r.None? <==> !(answers.JArr? || answers.JStr?)
    ensures r.Some? && answers.JArr? ==>
      |r.value| == |answers.elems| && forall i :: 0 <= i < |answers.elems| ==> r.value[i] == AsSubmitted(answers.elems[i])
    ensures r.Some? && answers.JStr? ==>
      |r.value| == |answers.s| && forall i :: 0 <= i < |r.value| ==> r.value[i] == SubmittedAnswer(None, JNull)
  {
    match answers
    case JArr(elems) => Some(seq(|elems|, i requires 0 <= i < |elems| => AsSubmitted(elems[i])))
    case JStr(chars) => Some(seq(|chars|, i requires 0 <= i < |chars| => AsSubmitted(JStr([chars[i]]))))
    case _ => None
  }

  /** A form with its questions, in form order. */
  datatype Form = Form(id: string, questions: seq<Question>)

  /** The HTTP outcome: 201 with the saved document, 400, 404, or 500 (an
      exception in the scoring loop or a rejected save). */
  datatype Outcome = Created(response: ResponseDoc) | BadRequest | NotFound | ServerError

  /** `form.questions.find(q => q._id.toString() === submittedAnswer.questionId)`. */
  function FindQuestion(questions: seq<Question>, id: Option<string>): (r: Option<Question>)
    ensures r.Some? ==> r.value in questions && id == Some(r.value.id)
  {
    if questions == [] then None
    else if id == Some(questions[0].id) then Some(questions[0])
    else FindQuestion(questions[1..], id)
  }

  /** The lookup fails exactly when no question has the id. */
  lemma {:induction false} FindQuestionNone(questions: seq<Question>, id: Option<string>)
    ensures FindQuestion(questions, id).None? <==> forall i :: 0 <= i < |questions| ==> id != Some(questions[i].id)
  {
    if questions != [] {
      FindQuestionNone(questions[1..], id);
      assert forall i :: 1 <= i < |questions| ==> questions[i] == questions[1..][i - 1];
    }
  }

  /** The loop state: `totalScore` and `processedAnswers`. */
  datatype Tally = Tally(totalScore: real, processedAnswers: seq<EntryInput>)

  /** The entry pushed for an answer with score `s`:
      `{...submittedAnswer, points: Math.round(questionScore)}`; spreading
      `null` adds no field. */
  function Processed(a: SubmittedAnswer, s: real): EntryInput {
    match a
    case NullElement => EntryInput(None, JNull, Some(Round(s)))
    case SubmittedAnswer(id, answer) => EntryInput(id, answer, Some(Round(s)))
  }

  /** One pass of the loop body. A `null` element throws (`None`) as soon
      as `find` calls its callback, that is when the form has a question,
      and is skipped otherwise; an answer citing no question is skipped, a
      `null` answer where the scoring code reads it throws, and any other
      answer adds its score and its entry. */
  function Step(questions: seq<Question>, t: Option<Tally>, a: SubmittedAnswer): Option<Tally> {
    match t
    case None => None
    case Some(t) =>
      if a.NullElement? then (if questions == [] then Some(t) else None)
      else match FindQuestion(questions, a.questionId)
      case None => Some(t)
      case Some(q) =>
        if a.answer == JNull && ReadsAnswer(q) then None
        else
          var s := QuestionScore(q, a.answer);
          Some(Tally(t.totalScore + s, t.processedAnswers + [Processed(a, s)]))
  }

  /** The loop state after the given answers, in order; `None` when an
      answer makes the scoring code throw. */
  function Scored(questions: seq<Question>, answers: seq<SubmittedAnswer>): Option<Tally>
  {
    if answers == [] then Some(Tally(0.0, []))
    else Step(questions, Scored(questions, answers[..|answers| - 1]), answers[|answers| - 1])
  }

  /** The loop state after one more answer. */
  lemma ScoredSnoc(questions: seq<Question>, init: seq<SubmittedAnswer>, a: SubmittedAnswer)
    ensures Scored(questions, init + [a]) == Step(questions, Scored(questions, init), a)
    ensures Scored(questions, init).None? ==> Scored(questions, init + [a]).None?
  {
    var answers := init + [a];
    assert answers[..|answers| - 1] == init && answers[|answers| - 1] == a;
  }

  /** The step for an answer whose question is found throws exactly when
      the answer is `null` and the scoring code reads it. */
  lemma StepThrows(questions: seq<Question>, t: Tally, a: SubmittedAnswer, q: Question)
    requires a.SubmittedAnswer? && FindQuestion(questions, a.questionId) == Some(q)
    ensures Step(questions, Some(t), a).None? <==> a.answer == JNull && ReadsAnswer(q)
  {
  }

  /** The step for a `null` element throws exactly when the form has a
      question. */
  lemma StepNullElement(questions: seq<Question>, t: Tally)
    ensures Step(questions, Some(t), NullElement).None? <==> |questions| > 0
    ensures questions == [] ==> Step(questions, Some(t), NullElement) == Some(t)
  {
  }

  /** The step for an answer citing no question changes nothing. */
  lemma StepSkips(questions: seq<Question>, t: Tally, a: SubmittedAnswer)
    requires a.SubmittedAnswer? && FindQuestion(questions, a.questionId).None?
    ensures Step(questions, Some(t), a) == Some(t)
  {
  }

  /** The step for an answer whose question is found and scored. */
  lemma StepScores(questions: seq<Question>, t: Tally, a: SubmittedAnswer, q: Question, s: real)
    requires a.SubmittedAnswer? && FindQuestion(questions, a.questionId) == Some(q) && !(a.answer == JNull && ReadsAnswer(q))
    requires s == QuestionScore(q, a.answer)
    ensures Step(questions, Some(t), a).Some?
    ensures Step(questions, Some(t), a).value.totalScore == t.totalScore + s
    ensures Step(questions, Some(t), a).value.processedAnswers == t.processedAnswers + [Processed(a, s)]
  {
  }

  /** The loop state after the answer at `i`. */
  lemma ScoredNext(questions: seq<Question>, answers: seq<SubmittedAnswer>, i: nat)
    requires i < |answers|
    ensures Scored(questions, answers[..i + 1]) == Step(questions, Scored(questions, answers[..i]), answers[i])
  {
    assert answers[..i + 1][..i] == answers[..i];
  }

  /** The document handed to `new Response(...)`. */
  function Draft(sub: Submission, form: Form, t: Tally): ResponseInput {
    ResponseInput(Some(form.id), sub.userId, sub.userEmail, Some(Round(t.totalScore)),
      Some(|form.questions| * 10), t.processedAnswers)
  }

  /** The outcome of a submission: 400 when the user id or email is falsy,
      checked first; 404 when there is no form; 500 when the answers cannot
      be iterated, the loop body throws or validation rejects the document
      (a user field the `String` cast refuses, or an entry without an
      answer); otherwise 201 with a valid
      document whose `totalMarks` is 10 for every question of the form and
      whose score and entries come from the scoring loop. */
  function Submit(sub: Submission, form: Option<Form>): (r: Outcome)
    ensures !HasUser(sub) <==> r == BadRequest
    ensures r == NotFound <==> HasUser(sub) && form.None?
    ensures HasUser(sub) && form.Some? && AnswerList(sub.answers).None? ==> r == ServerError
    ensures HasUser(sub) && form.Some? && (CastString(sub.userId).None? || CastString(sub.userEmail).None?) ==> r == ServerError
    ensures r.Created? ==> form.Some? && AnswerList(sub.answers).Some? && Scored(form.value.questions, AnswerList(sub.answers).value).Some?
    ensures r.Created? ==> Valid(r.response)
    ensures r.Created? ==> r.response.totalMarks == 10 * |form.value.questions|
    ensures r.Created? ==> r.response.formId == form.value.id
    ensures r.Created? ==> r.response.score == Round(Scored(form.value.questions, AnswerList(sub.answers).value).value.totalScore)
    ensures r.Created? ==> Some(r.response.userId) == CastString(sub.userId) && Some(r.response.userEmail) == CastString(sub.userEmail)
  {
    if !HasUser(sub) then BadRequest
    else if form.None? then NotFound
    else match AnswerList(sub.answers)
      case None => ServerError
      case Some(answers) =>
        match Scored(form.value.questions, answers)
        case None => ServerError
        case Some(t) =>
          match Validate(Draft(sub, form.value, t))
          case None => ServerError
          case Some(doc) => Created(doc)
  }

  /** Once the scoring code has thrown, later answers change nothing. */
  lemma {:induction false} ThrowIsFinal(questions: seq<Question>, answers: seq<SubmittedAnswer>, i: nat)
    requires i <= |answers| && Scored(questions, answers[..i]).None?
    ensures Scored(questions, answers).None?
    decreases |answers| - i
  {
    if i < |answers| {
      assert answers[..i + 1][..i] == answers[..i];
      ThrowIsFinal(questions, answers, i + 1);
    } else {
      assert answers[..i] == answers;
    }
  }

  /** The `for (const submittedAnswer of answers)` loop: `None` when the
      loop body throws on an element. */
  method ScoreAnswers(questions: seq<Question>, answers: seq<SubmittedAnswer>) returns (tally: Option<Tally>)
    ensures tally == Scored(questions, answers)
  {
    var totalScore := 0.0;
    var processedAnswers: seq<EntryInput> := [];
    var i := 0;
    while i < |answers|
      invariant 0 <= i <= |answers|
      invariant Scored(questions, answers[..i]).Some?
      invariant Scored(questions, answers[..i]).value.totalScore == totalScore
      invariant Scored(questions, answers[..i]).value.processedAnswers == processedAnswers
    {
      var submittedAnswer := answers[i];
      ScoredNext(questions, answers, i);
      if submittedAnswer.NullElement? {
        // `find` calls its callback, which reads `null.questionId`, on the
        // form's first question; a form with no questions never calls it
        StepNullElement(questions, Tally(totalScore, processedAnswers));
        if |questions| > 0 {
          ThrowIsFinal(questions, answers, i + 1);
          return None;
        }
      } else {
        var question := FindQuestion(questions, submittedAnswer.questionId);
        if question.Some? {
          StepThrows(questions, Tally(totalScore, processedAnswers), submittedAnswer, question.value);
          if submittedAnswer.answer == JNull && ReadsAnswer(question.value) {
            ThrowIsFinal(questions, answers, i + 1);
            return None;
          }
          var questionScore := ScoreQuestion(question.value, submittedAnswer.answer);
          StepScores(questions, Tally(totalScore, processedAnswers), submittedAnswer, question.value, questionScore);
          totalScore := totalScore + questionScore;
          processedAnswers := processedAnswers + [Processed(submittedAnswer, questionScore)];
        } else {
          StepSkips(questions, Tally(totalScore, processedAnswers), submittedAnswer);
        }
      }
      i := i + 1;
    }
    assert answers[..i] == answers;
    return Some(Tally(totalScore, processedAnswers));
  }

  /** The handler: the guards, the scoring loop, then the document. */
  method CreateResponse(sub: Submission, form: Option<Form>) returns (outcome: Outcome)
    ensures outcome == Submit(sub, form)
  {
    if !Truthy(sub.userId) || !Truthy(sub.userEmail) {
      return BadRequest;
    }
    if form.None? {
      return NotFound;
    }
    var answers := AnswerList(sub.answers);
    if answers.None? {
      return ServerError;
    }
    var tally := ScoreAnswers(form.value.questions, answers.value);
    if tally.None? {
      return ServerError;
    }
    var totalMarks := |form.value.questions| * 10;
    var saved := Validate(ResponseInput(Some(form.value.id), sub.userId, sub.userEmail,
      Some(Round(tally.value.totalScore)), Some(totalMarks), tally.value.processedAnswers));
    if saved.None? {
      return ServerError;
    }
    return Created(saved.value);
  }
}
