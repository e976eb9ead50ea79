/** What `createResponse` promises, proved about the model of the handler:
    the scoring loop equals a filter-then-map reference definition, unknown
    question ids are skipped, exactly the `null` answers to known questions
    give a 500, the score is bounded by the marks, and the response score and
    the per-answer points may disagree by up to about half the number of
    answers. */
module ResponseProperties {
  import opened Common
  import opened JsString
  import opened JsValues
  import opened QuestionModel
  import opened ResponseModel
  import opened Scoring
  import opened ResponseController

  /** The answer cites a question of the form. */
  predicate Known(questions: seq<Question>, a: SubmittedAnswer) {
    a.SubmittedAnswer? && FindQuestion(questions, a.questionId).Some?
  }

  /** The loop body throws on this element: a `null` element once the form
      has a question, or a `null` answer where the scoring code reads it. */
  predicate Throws(questions: seq<Question>, a: SubmittedAnswer) {
    (a.NullElement? && |questions| > 0)
    || (Known(questions, a) && a.answer == JNull && ReadsAnswer(FindQuestion(questions, a.questionId).value))
  }

  /** The score an answer earns; an answer to no question earns nothing. */
  function ScoreOf(questions: seq<Question>, a: SubmittedAnswer): (r: real)
    ensures 0.0 <= r <= MarksPerQuestion
  {
    if a.NullElement? then 0.0
    else match FindQuestion(questions, a.questionId)
    case None => 0.0
    case Some(q) => if a.answer == JNull && ReadsAnswer(q) then 0.0 else QuestionScore(q, a.answer)
  }

  /** The answers that cite a question of the form, in submission order. */
  function Matched(questions: seq<Question>, answers: seq<SubmittedAnswer>): (r: seq<SubmittedAnswer>)
    ensures |r| <= |answers|
    ensures forall i :: 0 <= i < |r| ==> Known(questions, r[i])
  {
    if answers == [] then []
    else
      var a := answers[|answers| - 1];
      Matched(questions, answers[..|answers| - 1]) + (if Known(questions, a) then [a] else [])
  }

  /** An answer is kept exactly when it cites a question of the form. */
  lemma {:induction false} MatchedMembers(questions: seq<Question>, answers: seq<SubmittedAnswer>, a: SubmittedAnswer)
    ensures a in Matched(questions, answers) <==> a in answers && Known(questions, a)
  {
    if answers != [] {
      var init := answers[..|answers| - 1];
      MatchedMembers(questions, init, a);
      SnocSplit(answers);
    }
  }

  /** The sum of the unrounded scores. */
  function TotalOf(questions: seq<Question>, ms: seq<SubmittedAnswer>): (r: real)
    ensures 0.0 <= r <= MarksPerQuestion * |ms| as real
  {
    if ms == [] then 0.0 else TotalOf(questions, ms[..|ms| - 1]) + ScoreOf(questions, ms[|ms| - 1])
  }

  /** One entry per answer, with its rounded score as `points`. */
  function EntriesOf(questions: seq<Question>, ms: seq<SubmittedAnswer>): (r: seq<EntryInput>)
    ensures |r| == |ms|
  {
    if ms == [] then [] else EntriesOf(questions, ms[..|ms| - 1]) + [Processed(ms[|ms| - 1], ScoreOf(questions, ms[|ms| - 1]))]
  }

  /** Entry `i` belongs to answer `i`. */
  lemma {:induction false} EntriesOfAt(questions: seq<Question>, ms: seq<SubmittedAnswer>, i: nat)
    requires i < |ms|
    ensures EntriesOf(questions, ms)[i] == Processed(ms[i], ScoreOf(questions, ms[i]))
  {
    if i < |ms| - 1 {
      EntriesOfAt(questions, ms[..|ms| - 1], i);
    }
  }

  /** The scoring loop throws exactly when some answer to a known question is
      `null` where the scoring code reads it. */
  lemma {:induction false} ScoredThrows(questions: seq<Question>, answers: seq<SubmittedAnswer>)
    ensures Scored(questions, answers).None? <==> exists i :: 0 <= i < |answers| && Throws(questions, answers[i])
  {
    if answers != [] {
      var init, a := answers[..|answers| - 1], answers[|answers| - 1];
      ScoredThrows(questions, init);
      SnocSplit(answers);
      ScoredSnoc(questions, init, a);
      if Scored(questions, init).Some? {
        if a.NullElement? {
          StepNullElement(questions, Scored(questions, init).value);
        } else if FindQuestion(questions, a.questionId).Some? {
          StepThrows(questions, Scored(questions, init).value, a, FindQuestion(questions, a.questionId).value);
        } else {
          StepSkips(questions, Scored(questions, init).value, a);
        }
      }
      if exists i :: 0 <= i < |init| && Throws(questions, init[i]) {
        var i :| 0 <= i < |init| && Throws(questions, init[i]);
        assert answers[i] == init[i];
      }
      if exists i :: 0 <= i < |answers| && Throws(questions, answers[i]) {
        var i :| 0 <= i < |answers| && Throws(questions, answers[i]);
        if i < |init| {
          assert init[i] == answers[i];
        }
      }
    }
  }

  /** Otherwise the loop's total is the sum of the scores of the answers
      that cite a known question, and its entries are those answers in
      submission order, each with its rounded score: answers citing an
      unknown question add nothing and no entry. */
  lemma {:induction false} ScoredReference(questions: seq<Question>, answers: seq<SubmittedAnswer>)
    requires Scored(questions, answers).Some?
    ensures Scored(questions, answers).value.totalScore == TotalOf(questions, Matched(questions, answers))
    ensures Scored(questions, answers).value.processedAnswers == EntriesOf(questions, Matched(questions, answers))
  {
    if answers != [] {
      var a := answers[|answers| - 1];
      var init := answers[..|answers| - 1];
      SnocSplit(answers);
      ScoredSnoc(questions, init, a);
      ScoredReference(questions, init);
      ReferenceStep(questions, init, a);
    }
  }

  /** One more answer keeps the loop state equal to the reference. */
  lemma ReferenceStep(questions: seq<Question>, init: seq<SubmittedAnswer>, a: SubmittedAnswer)
    requires Scored(questions, init + [a]).Some? && Scored(questions, init).Some?
    requires Scored(questions, init).value.totalScore == TotalOf(questions, Matched(questions, init))
    requires Scored(questions, init).value.processedAnswers == EntriesOf(questions, Matched(questions, init))
    ensures Scored(questions, init + [a]).value.totalScore == TotalOf(questions, Matched(questions, init + [a]))
    ensures Scored(questions, init + [a]).value.processedAnswers == EntriesOf(questions, Matched(questions, init + [a]))
  {
    var answers := init + [a];
    assert answers[..|answers| - 1] == init && answers[|answers| - 1] == a;
    ScoredSnoc(questions, init, a);
    var m := Matched(questions, init);
    if Known(questions, a) {
      assert Matched(questions, answers) == m + [a];
      KnownStep(questions, init, a, m);
    } else {
      assert Matched(questions, answers) == m + [];
      assert m + [] == m;
      if a.NullElement? {
        StepNullElement(questions, Scored(questions, init).value);
      } else {
        StepSkips(questions, Scored(questions, init).value, a);
      }
    }
  }

  /** The step for an answer citing a question of the form: the loop adds
      its score and its entry, as the reference does for one more answer. */
  lemma KnownStep(questions: seq<Question>, init: seq<SubmittedAnswer>, a: SubmittedAnswer, m: seq<SubmittedAnswer>)
    requires Known(questions, a)
    requires Scored(questions, init + [a]).Some? && Scored(questions, init).Some?
    requires Scored(questions, init).value.totalScore == TotalOf(questions, m)
    requires Scored(questions, init).value.processedAnswers == EntriesOf(questions, m)
    ensures Scored(questions, init + [a]).value.totalScore == TotalOf(questions, m + [a])
    ensures Scored(questions, init + [a]).value.processedAnswers == EntriesOf(questions, m + [a])
  {
    ScoredSnoc(questions, init, a);
    var t := Scored(questions, init).value;
    var q := FindQuestion(questions, a.questionId).value;
    StepThrows(questions, t, a, q);
    var s := QuestionScore(q, a.answer);
    StepScores(questions, t, a, q, s);
    assert ScoreOf(questions, a) == s;
    ReferenceSnoc(questions, m, a);
  }

  /** The reference definitions for one more answer. */
  lemma ReferenceSnoc(questions: seq<Question>, m: seq<SubmittedAnswer>, a: SubmittedAnswer)
    ensures TotalOf(questions, m + [a]) == TotalOf(questions, m) + ScoreOf(questions, a)
    ensures EntriesOf(questions, m + [a]) == EntriesOf(questions, m) + [Processed(a, ScoreOf(questions, a))]
  {
    var m' := m + [a];
    assert m'[..|m'| - 1] == m && m'[|m'| - 1] == a;
  }

  /** An answer citing no question of the form, or a `null` element when
      the form has no questions, can be dropped from anywhere in the
      submission without changing the loop's result. */
  lemma {:induction false} UnknownAnswerSkipped(questions: seq<Question>, xs: seq<SubmittedAnswer>, a: SubmittedAnswer, ys: seq<SubmittedAnswer>)
    requires !Known(questions, a) && (a.NullElement? ==> questions == [])
    ensures Scored(questions, xs + [a] + ys) == Scored(questions, xs + ys)
    decreases |ys|
  {
    if ys == [] {
      assert xs + [a] + ys == xs + [a];
      assert xs + ys == xs;
      ScoredSnoc(questions, xs, a);
      if Scored(questions, xs).Some? {
        if a.NullElement? {
          StepNullElement(questions, Scored(questions, xs).value);
        } else {
          StepSkips(questions, Scored(questions, xs).value, a);
        }
      }
    } else {
      var ys', y := ys[..|ys| - 1], ys[|ys| - 1];
      UnknownAnswerSkipped(questions, xs, a, ys');
      assert xs + [a] + ys == (xs + [a] + ys') + [y];
      assert xs + ys == (xs + ys') + [y];
      ScoredSnoc(questions, xs + [a] + ys', y);
      ScoredSnoc(questions, xs + ys', y);
    }
  }

  /** Truthy user fields that the `String` cast accepts. */
  predicate SavableUser(sub: Submission) {
    HasUser(sub) && CastString(sub.userId).Some? && CastString(sub.userEmail).Some?
  }

  /** With truthy user fields and a found form, the handler answers 500
      exactly when `answers` cannot be iterated, or the `String` cast refuses
      a user field (an array, or an object not taken for a document), or
      some element is `null`
      while the form has a question (`find` reads its `questionId`), or some
      answer citing a question of the form is missing or `null` (either the
      scoring code throws on it or validation rejects it); every other
      submission is saved. */
  lemma ServerErrorExactly(sub: Submission, form: Form)
    requires HasUser(sub)
    ensures var list := AnswerList(sub.answers);
      Submit(sub, Some(form)) == ServerError <==>
        list.None? || CastString(sub.userId).None? || CastString(sub.userEmail).None? ||
        exists i :: 0 <= i < |list.value| &&
          ((list.value[i].NullElement? && |form.questions| > 0) || (Known(form.questions, list.value[i]) && list.value[i].answer == JNull))
    ensures Submit(sub, Some(form)) != ServerError ==> Submit(sub, Some(form)).Created?
  {
    var qs := form.questions;
    var list := AnswerList(sub.answers);
    TruthyRequiredText(sub.userId);
    TruthyRequiredText(sub.userEmail);
    if list.Some? {
      var answers := list.value;
      ScoredThrows(qs, answers);
      if Scored(qs, answers).Some? {
        ScoredReference(qs, answers);
        assert Draft(sub, form, Scored(qs, answers).value).answers == EntriesOf(qs, Matched(qs, answers));
        EntriesAccepted(qs, answers);
      }
    }
  }

  /** A number sent as `userId` is stored as its text. */
  lemma NumberUserIdStored(formId: string, n: real, email: string)
    requires n != 0.0 && email != ""
    ensures Submit(Submission(formId, JArr([]), JNum(n), JStr(email)), Some(Form(formId, [])))
      == Created(ResponseDoc(formId, NumberText(n), Chars(email), 0, 0, []))
  {
    EmptyFormStoresNothing(Submission(formId, JArr([]), JNum(n), JStr(email)), formId);
  }

  /** A plain object sent as `userId` passes the 400 check, since it is
      truthy, and the `String` cast refuses it when the response is saved:
      a 500, whatever the form and the answers. */
  lemma PlainObjectUserIdFails(form: Form, answers: Json, email: string)
    requires email != ""
    ensures Submit(Submission(form.id, answers, JObj([]), JStr(email)), Some(form)) == ServerError
  {
  }

  /** An object with a non-empty string `_id` is taken for a document and
      its `_id` is stored. */
  lemma DocumentUserIdStored(formId: string, id: string, email: string)
    requires id != "" && email != ""
    ensures Submit(Submission(formId, JArr([]), JObj([("_id", JStr(id))]), JStr(email)), Some(Form(formId, [])))
      == Created(ResponseDoc(formId, Chars(id), Chars(email), 0, 0, []))
  {
    var v := JObj([("_id", JStr(id))]);
    assert JsObject.Get(v.fields, "_id") == Some(JStr(id));
    EmptyFormStoresNothing(Submission(formId, JArr([]), v, JStr(email)), formId);
  }

  /** Answers that cite no question leave the loop at its start. */
  lemma {:induction false} NothingCitedScoresNothing(questions: seq<Question>, answers: seq<SubmittedAnswer>)
    requires forall i :: 0 <= i < |answers| ==> answers[i] == SubmittedAnswer(None, JNull)
    ensures Scored(questions, answers) == Some(Tally(0.0, []))
  {
    if answers != [] {
      var init := answers[..|answers| - 1];
      NothingCitedScoresNothing(questions, init);
      FindQuestionNone(questions, answers[|answers| - 1].questionId);
    }
  }

  /** A text sent as `answers` is iterated character by character, so
      nothing is cited: the response is saved with no answers and score 0. */
  lemma TextAnswersStoreNothing(sub: Submission, form: Form)
    requires SavableUser(sub) && sub.answers.JStr?
    ensures Submit(sub, Some(form)).Created?
    ensures Submit(sub, Some(form)).response.answers == [] && Submit(sub, Some(form)).response.score == 0
  {
    NothingCitedScoresNothing(form.questions, AnswerList(sub.answers).value);
    RoundOfInt(0);
    assert Validate(Draft(sub, form, Tally(0.0, []))).Some?;
  }

  /** On a form with no questions every element is skipped, `null` ones
      included: `find` never calls its callback. */
  lemma {:induction false} EmptyFormScoresNothing(answers: seq<SubmittedAnswer>)
    ensures Scored([], answers) == Some(Tally(0.0, []))
  {
    if answers != [] {
      EmptyFormScoresNothing(answers[..|answers| - 1]);
      var a := answers[|answers| - 1];
      if a.SubmittedAnswer? {
        FindQuestionNone([], a.questionId);
      }
    }
  }

  /** A form with no questions saves any iterable `answers`, even one
      holding `null` elements, with no answers and a score of 0 out of 0. */
  lemma EmptyFormStoresNothing(sub: Submission, formId: string)
    requires SavableUser(sub) && AnswerList(sub.answers).Some?
    ensures Submit(sub, Some(Form(formId, []))) == Created(ResponseDoc(formId, CastString(sub.userId).value, CastString(sub.userEmail).value, 0, 0, []))
  {
    EmptyFormScoresNothing(AnswerList(sub.answers).value);
    RoundOfInt(0);
    assert Validate(Draft(sub, Form(formId, []), Tally(0.0, []))).Some?;
  }

  /** The reference entries all pass validation exactly when no answer
      citing a question of the form is `null`. */
  lemma EntriesAccepted(qs: seq<Question>, answers: seq<SubmittedAnswer>)
    ensures (forall j :: 0 <= j < |EntriesOf(qs, Matched(qs, answers))| ==> EntryAccepted(EntriesOf(qs, Matched(qs, answers))[j]))
      <==> !exists i :: 0 <= i < |answers| && Known(qs, answers[i]) && answers[i].answer == JNull
  {
    var m := Matched(qs, answers);
    var es := EntriesOf(qs, m);
    if exists i :: 0 <= i < |answers| && Known(qs, answers[i]) && answers[i].answer == JNull {
      var i :| 0 <= i < |answers| && Known(qs, answers[i]) && answers[i].answer == JNull;
      MatchedMembers(qs, answers, answers[i]);
      var j :| 0 <= j < |m| && m[j] == answers[i];
      EntriesOfAt(qs, m, j);
      assert !EntryAccepted(es[j]);
    } else {
      forall j | 0 <= j < |es| ensures EntryAccepted(es[j]) {
        EntriesOfAt(qs, m, j);
        MatchedMembers(qs, answers, m[j]);
      }
    }
  }

  /** The id an answer cites; a `null` element cites none. */
  function CitedId(a: SubmittedAnswer): Option<string> {
    if a.NullElement? then None else a.questionId
  }

  /** The ids the answers cite. */
  function CitedIds(ms: seq<SubmittedAnswer>): (r: seq<Option<string>>)
    ensures |r| == |ms|
    ensures forall i :: 0 <= i < |ms| ==> r[i] == CitedId(ms[i])
  {
    if ms == [] then [] else CitedIds(ms[..|ms| - 1]) + [CitedId(ms[|ms| - 1])]
  }

  /** The ids of the form's questions. */
  function QuestionIds(questions: seq<Question>): (r: seq<Option<string>>)
    ensures |r| == |questions|
    ensures forall i :: 0 <= i < |questions| ==> r[i] == Some(questions[i].id)
  {
    if questions == [] then [] else [Some(questions[0].id)] + QuestionIds(questions[1..])
  }

  lemma SubsetSize<T>(a: set<T>, b: set<T>)
    requires a <= b
    ensures |a| <= |b|
  {
    assert b == a + (b - a);
    assert a * (b - a) == {};
  }

  /** When no two answers cite the same question the form has, at most one
      answer per question is counted, so the score is at most the total marks. */
  lemma ScoreWithinMarks(sub: Submission, form: Form)
    requires Submit(sub, Some(form)).Created?
    requires NoDup(CitedIds(Matched(form.questions, AnswerList(sub.answers).value)))
    ensures 0 <= Submit(sub, Some(form)).response.score <= Submit(sub, Some(form)).response.totalMarks
  {
    var qs := form.questions;
    var answers := AnswerList(sub.answers).value;
    ScoredReference(qs, answers);
    var total := TotalOf(qs, Matched(qs, answers));
    DistinctCitesBounded(qs, answers);
    assert total <= MarksPerQuestion * |qs| as real;
    RoundMonotone(0.0, total);
    RoundOfInt(0);
    RoundMonotone(total, (10 * |qs|) as real);
    RoundOfInt(10 * |qs|);
  }

  /** Answers citing distinct questions of the form are at most as many as
      the form's questions. */
  lemma DistinctCitesBounded(qs: seq<Question>, answers: seq<SubmittedAnswer>)
    requires NoDup(CitedIds(Matched(qs, answers)))
    ensures |Matched(qs, answers)| <= |qs|
  {
    var m := Matched(qs, answers);
    NoDupElems(CitedIds(m));
    forall x | x in Elems(CitedIds(m)) ensures x in Elems(QuestionIds(qs)) {
      var i :| 0 <= i < |m| && CitedIds(m)[i] == x;
      MatchedMembers(qs, answers, m[i]);
      var q := FindQuestion(qs, m[i].questionId).value;
      var j :| 0 <= j < |qs| && qs[j] == q;
      assert QuestionIds(qs)[j] == x;
    }
    SubsetSize(Elems(CitedIds(m)), Elems(QuestionIds(qs)));
  }

  /** The sum of the `points` of the loop's entries. */
  function EntryPoints(es: seq<EntryInput>): int {
    if es == [] then 0 else EntryPoints(es[..|es| - 1]) + es[|es| - 1].points.GetOr(0)
  }

  /** The sum of the stored `points` of a response. */
  function SumPoints(answers: seq<AnswerEntry>): int {
    if answers == [] then 0 else SumPoints(answers[..|answers| - 1]) + answers[|answers| - 1].points
  }

  /** Each entry's points are its score rounded, so over `n` entries the sum
      of the points lies within `n / 2` of the unrounded total. */
  lemma {:induction false} PointsNearTotal(questions: seq<Question>, answers: seq<SubmittedAnswer>)
    requires Scored(questions, answers).Some?
    ensures var t := Scored(questions, answers).value;
      var n := |t.processedAnswers| as real;
      t.totalScore - n / 2.0 < EntryPoints(t.processedAnswers) as real <= t.totalScore + n / 2.0
      || (n == 0.0 && EntryPoints(t.processedAnswers) == 0 && t.totalScore == 0.0)
  {
    if answers != [] {
      var init := answers[..|answers| - 1];
      PointsNearTotal(questions, init);
      var t0 := Scored(questions, init).value;
      var t := Scored(questions, answers).value;
      if t.processedAnswers != t0.processedAnswers {
        assert t.processedAnswers[..|t.processedAnswers| - 1] == t0.processedAnswers;
      }
    }
  }

  lemma {:induction false} SumPointsOfEntries(es: seq<EntryInput>, ds: seq<AnswerEntry>)
    requires |es| == |ds|
    requires forall i :: 0 <= i < |es| ==> ds[i].points == es[i].points.GetOr(0)
    ensures SumPoints(ds) == EntryPoints(es)
  {
    if es != [] {
      SumPointsOfEntries(es[..|es| - 1], ds[..|ds| - 1]);
    }
  }

  /** The stored score rounds the unrounded total once, while each answer's
      points round its own score: over `n` stored answers the sum of the
      points and the score differ by less than `(n + 1) / 2` (and need not
      be equal). */
  lemma ScoreVersusPoints(sub: Submission, form: Form)
    requires Submit(sub, Some(form)).Created?
    ensures var doc := Submit(sub, Some(form)).response;
      var gap := (SumPoints(doc.answers) - doc.score) as real;
      var bound := (|doc.answers| + 1) as real / 2.0;
      -bound < gap < bound
  {
    var answers := AnswerList(sub.answers).value;
    var t := Scored(form.questions, answers).value;
    var doc := Submit(sub, Some(form)).response;
    PointsNearTotal(form.questions, answers);
    SumPointsOfEntries(t.processedAnswers, doc.answers);
  }

  /** When every answer cites a question of the form, all are kept. */
  lemma {:induction false} AllKnownMatched(qs: seq<Question>, answers: seq<SubmittedAnswer>)
    requires forall i :: 0 <= i < |answers| ==> Known(qs, answers[i])
    ensures Matched(qs, answers) == answers
  {
    if answers != [] {
      AllKnownMatched(qs, answers[..|answers| - 1]);
      SnocSplit(answers);
    }
  }

  /** Answers that each earn `s` add up to `s` apiece. */
  lemma {:induction false} UniformTotal(qs: seq<Question>, ms: seq<SubmittedAnswer>, s: real)
    requires forall i :: 0 <= i < |ms| ==> ScoreOf(qs, ms[i]) == s
    ensures TotalOf(qs, ms) == |ms| as real * s
  {
    if ms != [] {
      var init := ms[..|ms| - 1];
      assert forall i :: 0 <= i < |init| ==> init[i] == ms[i];
      UniformTotal(qs, init, s);
      assert ScoreOf(qs, ms[|ms| - 1]) == s;
      calc {
        TotalOf(qs, ms);
        TotalOf(qs, init) + s;
        |init| as real * s + s;
        { assert |ms| as real == |init| as real + 1.0; }
        |ms| as real * s;
      }
    }
  }

  lemma MulSucc(n: int, r: int)
    ensures (n + 1) * r == n * r + r
  {
  }

  /** Answers that each earn `s` store `Math.round(s)` points apiece. */
  lemma {:induction false} UniformPoints(qs: seq<Question>, ms: seq<SubmittedAnswer>, s: real)
    requires forall i :: 0 <= i < |ms| ==> ScoreOf(qs, ms[i]) == s
    ensures EntryPoints(EntriesOf(qs, ms)) == |ms| * Round(s)
  {
    if ms != [] {
      var init := ms[..|ms| - 1];
      assert forall i :: 0 <= i < |init| ==> init[i] == ms[i];
      UniformPoints(qs, init, s);
      var es := EntriesOf(qs, ms);
      assert es == EntriesOf(qs, init) + [Processed(ms[|ms| - 1], s)];
      assert es[..|es| - 1] == EntriesOf(qs, init);
      calc {
        EntryPoints(es);
        EntryPoints(EntriesOf(qs, init)) + Round(s);
        |init| * Round(s) + Round(s);
        { assert |ms| == |init| + 1; MulSucc(|init|, Round(s)); }
        |ms| * Round(s);
      }
    }
  }

  /** The loop over answers that all cite questions of the form, are not
      `null` and each earn `s`: `n * s` in total, and entries that pass
      validation worth `n` times `Math.round(s)` points. */
  lemma UniformTally(qs: seq<Question>, answers: seq<SubmittedAnswer>, s: real)
    requires forall i :: 0 <= i < |answers| ==> Known(qs, answers[i]) && answers[i].answer != JNull && ScoreOf(qs, answers[i]) == s
    ensures Scored(qs, answers).Some?
    ensures Scored(qs, answers).value.totalScore == |answers| as real * s
    ensures EntryPoints(Scored(qs, answers).value.processedAnswers) == |answers| * Round(s)
    ensures forall j :: 0 <= j < |Scored(qs, answers).value.processedAnswers| ==> EntryAccepted(Scored(qs, answers).value.processedAnswers[j])
  {
    ScoredThrows(qs, answers);
    ScoredReference(qs, answers);
    AllKnownMatched(qs, answers);
    UniformTotal(qs, answers, s);
    UniformPoints(qs, answers, s);
    EntriesAccepted(qs, answers);
  }

  /** A loop that ends without throwing, with entries that pass validation,
      is saved with the rounded total as its score and its entries' points. */
  lemma SavedTally(sub: Submission, form: Form, t: Tally)
    requires SavableUser(sub) && AnswerList(sub.answers).Some?
    requires Scored(form.questions, AnswerList(sub.answers).value) == Some(t)
    requires forall j :: 0 <= j < |t.processedAnswers| ==> EntryAccepted(t.processedAnswers[j])
    ensures var r := Submit(sub, Some(form));
      r.Created? && r.response.score == Round(t.totalScore) && SumPoints(r.response.answers) == EntryPoints(t.processedAnswers)
  {
    var doc := Validate(Draft(sub, form, t)).value;
    SumPointsOfEntries(t.processedAnswers, doc.answers);
  }

  /** A Comprehension question with three mcqs, each keyed "x". */
  function ThreeMcqs(id: string): Question {
    Question(id, Comprehension, "", None, [], [], None, [], None,
      [Mcq("a", None, [], Some("x")), Mcq("b", None, [], Some("x")), Mcq("c", None, [], Some("x"))])
  }

  /** An answer choosing "x" for mcq "a" only. */
  const FirstOnly: Json := JObj([("a", JStr("x"))])

  /** The element `{questionId: id, answer: FirstOnly}`. */
  function FirstOnlyTo(id: string): Json {
    JObj([("questionId", JStr(id)), ("answer", FirstOnly)])
  }

  /** The loop body reads the element as an answer to `id`. */
  lemma FirstOnlyElement(id: string)
    ensures AsSubmitted(FirstOnlyTo(id)) == SubmittedAnswer(Some(id), FirstOnly)
  {
    assert JsObject.Get(FirstOnlyTo(id).fields, "questionId") == Some(JStr(id));
    assert JsObject.Get(FirstOnlyTo(id).fields, "answer") == Some(FirstOnly);
  }

  /** One mcq of three right is worth 10/3, stored as 3 points. */
  lemma FirstOnlyScore(id: string)
    ensures QuestionScore(ThreeMcqs(id), FirstOnly) == 10.0 / 3.0
    ensures Round(10.0 / 3.0) == 3
  {
    var mcqs := ThreeMcqs(id).mcqs;
    assert McqMarks(FirstOnly, mcqs) == [true, false, false];
    assert Credits([true, false, false]) == 1;
    ComprehensionFraction(FirstOnly, mcqs);
  }

  /** `n` such questions, with ids "0", "1", …. */
  function ThreeMcqsForm(n: nat): (r: seq<Question>)
    ensures |r| == n && forall i :: 0 <= i < n ==> r[i] == ThreeMcqs(NatToString(i))
  {
    seq(n, i requires 0 <= i => ThreeMcqs(NatToString(i)))
  }

  /** One `FirstOnly` answer to each of them, in order. */
  function FirstOnlyAnswers(n: nat): (r: seq<Json>)
    ensures |r| == n && forall i :: 0 <= i < n ==> r[i] == FirstOnlyTo(NatToString(i))
  {
    seq(n, i requires 0 <= i => FirstOnlyTo(NatToString(i)))
  }

  /** `find` returns the question at `k` when no earlier one has its id. */
  lemma {:induction false} FindQuestionAt(qs: seq<Question>, k: nat)
    requires k < |qs| && forall j :: 0 <= j < k ==> qs[j].id != qs[k].id
    ensures FindQuestion(qs, Some(qs[k].id)) == Some(qs[k])
  {
    if k > 0 {
      assert qs[1..][k - 1] == qs[k];
      FindQuestionAt(qs[1..], k - 1);
    }
  }

  /** Each answer cites its own question and earns 10/3. */
  lemma FirstOnlyAnswersEarn(n: nat)
    ensures AnswerList(JArr(FirstOnlyAnswers(n))).Some?
    ensures var answers := AnswerList(JArr(FirstOnlyAnswers(n))).value;
      |answers| == n && forall i :: 0 <= i < |answers| ==>
        Known(ThreeMcqsForm(n), answers[i]) && answers[i].answer != JNull && ScoreOf(ThreeMcqsForm(n), answers[i]) == 10.0 / 3.0
  {
    var qs := ThreeMcqsForm(n);
    var answers := AnswerList(JArr(FirstOnlyAnswers(n))).value;
    forall i | 0 <= i < n
      ensures Known(qs, answers[i]) && answers[i].answer != JNull && ScoreOf(qs, answers[i]) == 10.0 / 3.0
    {
      var id := NatToString(i);
      FirstOnlyElement(id);
      assert answers[i] == SubmittedAnswer(Some(id), FirstOnly);
      forall j | 0 <= j < i ensures qs[j].id != id {
        if qs[j].id == id {
          NatToStringInjective(j, i);
        }
      }
      FindQuestionAt(qs, i);
      FirstOnlyScore(id);
    }
  }

  /** Five answers, each with one mcq of three right on its own question:
      the points add up to 15 while the score rounds 50/3 to 17, so the two
      differ by 2. */
  lemma PointsAndScoreDifferByTwo()
    ensures var r := Submit(Submission("f", JArr(FirstOnlyAnswers(5)), JStr("u"), JStr("e")), Some(Form("f", ThreeMcqsForm(5))));
      r.Created? && SumPoints(r.response.answers) == 15 && r.response.score == 17
  {
    var sub := Submission("f", JArr(FirstOnlyAnswers(5)), JStr("u"), JStr("e"));
    assert SavableUser(sub);
    FirstOnlyAnswersEarn(5);
    var answers := AnswerList(sub.answers).value;
    UniformTally(ThreeMcqsForm(5), answers, 10.0 / 3.0);
    var t := Scored(ThreeMcqsForm(5), answers).value;
    SavedTally(sub, Form("f", ThreeMcqsForm(5)), t);
    FirstOnlyScore("1");
    assert t.totalScore == 50.0 / 3.0;
    assert Round(50.0 / 3.0) == 17;
    assert EntryPoints(t.processedAnswers) == 15;
  }

  /** A form with one question of one mcq keyed "x". */
  const OneMcq: Question := Question("1", Comprehension, "", None, [], [], None, [], None, [Mcq("a", None, [], Some("x"))])

  /** The handler does not reject a question answered twice: a form with
      one question, answered correctly twice, scores 20 out of 10. */
  lemma RepeatedAnswerExceedsMarks()
    ensures var r := Submit(Submission("f", JArr([FirstOnlyTo("1"), FirstOnlyTo("1")]), JStr("u"), JStr("e")), Some(Form("f", [OneMcq])));
      r.Created? && r.response.score == 20 && r.response.totalMarks == 10
  {
    var sub := Submission("f", JArr([FirstOnlyTo("1"), FirstOnlyTo("1")]), JStr("u"), JStr("e"));
    assert SavableUser(sub);
    var a := SubmittedAnswer(Some("1"), FirstOnly);
    FirstOnlyElement("1");
    assert AnswerList(sub.answers).value == [a, a];
    assert McqMarks(FirstOnly, OneMcq.mcqs) == [true];
    assert Credits([true]) == 1;
    ComprehensionFraction(FirstOnly, OneMcq.mcqs);
    assert ScoreOf([OneMcq], a) == 10.0;
    UniformTally([OneMcq], [a, a], 10.0);
    var t := Scored([OneMcq], [a, a]).value;
    SavedTally(sub, Form("f", [OneMcq]), t);
    assert t.totalScore == 20.0;
    RoundOfInt(20);
  }

  /** Every answer recorded for a question that is not Comprehension,
      Categorize or Cloze is stored with 0 points, and it is still stored. */
  lemma NonScorableRecorded(sub: Submission, form: Form, i: nat)
    requires Submit(sub, Some(form)).Created?
    requires i < |Matched(form.questions, AnswerList(sub.answers).value)|
    requires FindQuestion(form.questions, Matched(form.questions, AnswerList(sub.answers).value)[i].questionId).Some?
    requires FindQuestion(form.questions, Matched(form.questions, AnswerList(sub.answers).value)[i].questionId).value.kind in {Heading, Paragraph, Banner}
    ensures i < |Submit(sub, Some(form)).response.answers|
    ensures Submit(sub, Some(form)).response.answers[i].points == 0
    ensures Some(Submit(sub, Some(form)).response.answers[i].questionId) == Matched(form.questions, AnswerList(sub.answers).value)[i].questionId
  {
    var qs := form.questions;
    var answers := AnswerList(sub.answers).value;
    var m := Matched(qs, answers);
    ScoredReference(qs, answers);
    EntriesOfAt(qs, m, i);
    assert ScoreOf(qs, m[i]) == 0.0;
    RoundOfInt(0);
    var t := Scored(qs, answers).value;
    assert t.processedAnswers[i].points == Some(0);
  }

  /** 400 takes precedence over 404, and both come before any scoring: they
      do not depend on the answers. */
  lemma GuardsBeforeScoring(sub: Submission, form: Option<Form>, answers: Json)
    ensures var other := sub.(answers := answers);
      (Submit(sub, form) == BadRequest <==> Submit(other, form) == BadRequest)
      && (Submit(sub, form) == NotFound <==> Submit(other, form) == NotFound)
  {
  }
}
