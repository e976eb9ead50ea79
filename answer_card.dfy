/** The result card shown for one stored answer
    (`client/src/components/results/AnswerCard.jsx`): an error card when the
    entry or its populated question is missing, otherwise a status computed
    from the type tag and the stored points, and a breakdown comparing the
    respondent's answer with the answer key. */
module AnswerCard {
  import opened Common
  import opened QuestionModel
  import opened JsValues
  import Scoring

  /** The status badge of a card; `LoadError` is the "may have been deleted"
      card. */
  datatype Status = LoadError | Correct | PartiallyCorrect | Incorrect | Submitted

  /** `SCORABLE_TYPES`. */
  const ScorableTypes: seq<string> := ["Comprehension", "Categorize", "Cloze", "MultipleChoice", "Checkbox", "Dropdown", "PictureChoice"]

  /** `SCORABLE_TYPES.includes(type)`. */
  predicate IsScorable(tag: string) {
    tag in ScorableTypes
  }

  /** The badge for a type tag and stored points: a non-scorable type is
      always `Submitted`; a scorable one is `Correct` at exactly 10 points,
      `PartiallyCorrect` strictly between 0 and 10, and `Incorrect` otherwise.
      Exactly one badge applies. */
  function StatusFor(tag: string, points: int): (r: Status)
    ensures r != LoadError
    ensures r == Submitted <==> !IsScorable(tag)
    ensures r == Correct <==> IsScorable(tag) && points == 10
    ensures r == PartiallyCorrect <==> IsScorable(tag) && 0 < points < 10
    ensures r == Incorrect <==> IsScorable(tag) && (points <= 0 || points > 10)
  {
    var wasCorrect := points == 10;
    var wasPartiallyCorrect := points > 0 && points < 10;
    if IsScorable(tag) then
      if wasCorrect then Correct
      else if wasPartiallyCorrect then PartiallyCorrect
      else Incorrect
    else Submitted
  }

  /** A stored answer as the results page receives it: the populated
      question is `None` when it was deleted or never existed. */
  datatype AnswerView = AnswerView(question: Option<Question>, answer: Json, points: int)

  /** The card's badge: the error card for missing data or a missing
      question, otherwise the badge for the question's type. */
  function CardStatus(a: Option<AnswerView>): (r: Status)
    ensures r == LoadError <==> a.None? || a.value.question.None?
    ensures r != LoadError ==> r == StatusFor(TypeName(a.value.question.value.kind), a.value.points)
  {
    if a.None? || a.value.question.None? then LoadError
    else StatusFor(TypeName(a.value.question.value.kind), a.value.points)
  }

  /** Of the types a stored question can have, exactly Comprehension,
      Categorize and Cloze are scorable; the other four scorable tags never
      name a stored question. */
  lemma StoredScorable(t: QuestionType)
    ensures IsScorable(TypeName(t)) <==> t in {Comprehension, Categorize, Cloze}
  {
  }

  /** Since stored points are a rounded score in `[0, 10]`, a scorable
      question's card reads `Correct` from a score of 9.5 on, and `Incorrect`
      only below 0.5. */
  lemma StatusOfScore(tag: string, s: real)
    requires IsScorable(tag) && 0.0 <= s <= Scoring.MarksPerQuestion
    ensures StatusFor(tag, Round(s)) == Correct <==> s >= 9.5
    ensures StatusFor(tag, Round(s)) == Incorrect <==> s < 0.5
    ensures StatusFor(tag, Round(s)) == PartiallyCorrect <==> 0.5 <= s < 9.5
  {
    if s >= 9.5 {
      RoundMonotone(9.5, s);
      RoundMonotone(s, 10.0);
      RoundOfInt(10);
    } else if s >= 0.5 {
      RoundMonotone(0.5, s);
    }
  }

  /** What the Comprehension breakdown shows for one mcq: the choice when
      the answer is non-null and its value under the mcq id is truthy,
      otherwise the text "No answer". */
  function UserChoice(answer: Json, mcq: Mcq): (r: Json)
    ensures Truthy(r) && r != JStr("")
    ensures !(Truthy(answer) && TruthyOpt(Get(answer, mcq.id))) ==> r == JStr(NoAnswer)
    ensures Truthy(answer) && TruthyOpt(Get(answer, mcq.id)) ==> r == Get(answer, mcq.id).value
  {
    if Truthy(answer) && TruthyOpt(Get(answer, mcq.id)) then Get(answer, mcq.id).value else JStr(NoAnswer)
  }

  const NoAnswer: string := "No answer"

  /** The mcq is shown as correct exactly when the choice shown strictly
      equals its `correctAnswer`; the correct answer is shown only otherwise. */
  predicate McqShownCorrect(answer: Json, mcq: Mcq) {
    StrictEquals(Some(UserChoice(answer, mcq)), mcq.correctAnswer)
  }

  /** The breakdown lines for one mcq. */
  datatype McqLine = McqLine(choice: Json, correct: bool, shownKey: Option<Option<string>>)

  /** One mcq of the breakdown: the choice, whether it is marked correct,
      and (only when wrong) the correct answer line. */
  function McqBreakdown(answer: Json, mcq: Mcq): (r: McqLine)
    ensures r.correct <==> McqShownCorrect(answer, mcq)
    ensures r.shownKey.Some? <==> !r.correct
    ensures r.shownKey.Some? ==> r.shownKey.value == mcq.correctAnswer
  {
    var userChoice := UserChoice(answer, mcq);
    var isMcqCorrect := StrictEquals(Some(userChoice), mcq.correctAnswer);
    McqLine(userChoice, isMcqCorrect, if isMcqCorrect then None else Some(mcq.correctAnswer))
  }

  /** For a non-empty text choice the card agrees with the server: it marks
      the mcq correct exactly when the mcq earned credit. */
  lemma McqCardAgreesWithScoring(answer: Json, mcq: Mcq, t: string)
    requires answer != JNull && Get(answer, mcq.id) == Some(JStr(t)) && t != ""
    ensures McqShownCorrect(answer, mcq) <==> Scoring.McqEarns(answer, mcq)
  {
    if answer.JStr? {
      assert answer.s != "";
    }
  }

  /** Where they disagree: an mcq whose key is literally "No answer" and
      that was left unanswered is shown as correct, though it earned
      nothing. */
  lemma NoAnswerShownCorrect(mcq: Mcq)
    requires mcq.correctAnswer == Some(NoAnswer)
    ensures McqShownCorrect(JObj([]), mcq)
    ensures !Scoring.McqEarns(JObj([]), mcq)
  {
  }

  /** The correct answer shown for one category: the texts of the items whose
      `category` is that category, in item order. */
  function CategoryCorrectAnswer(items: seq<Item>, category: string): (r: seq<Option<string>>)
    ensures |r| <= |items|
    ensures forall t :: t in r <==> exists i :: 0 <= i < |items| && items[i].category == Some(category) && items[i].text == t
  {
    if items == [] then []
    else
      var rest := CategoryCorrectAnswer(items[1..], category);
      assert forall i :: 0 < i < |items| ==> items[i] == items[1..][i - 1];
      (if items[0].category == Some(category) then [items[0].text] else []) + rest
  }
}
