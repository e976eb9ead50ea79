/** The stored response document (`server/models/Response.js`): who
    answered which form, the total score out of the total marks, and one entry
    per answered question holding the raw answer and the points it earned. */
module ResponseModel {
  import opened Common
  import opened JsValues
  import JsObject

  /** One recorded answer. The answer is any JSON value (a `Mixed` path). */
  datatype AnswerEntry = AnswerEntry(questionId: string, answer: Json, points: int)

  /** The value a `String` path stores. A number is kept as the number whose
      text (`String(n)`) is stored; its digits are not spelled out. */
  datatype Text = Chars(s: string) | NumberText(n: real)

  /** A stored response. */
  datatype ResponseDoc = ResponseDoc(
    formId: string,
    userId: Text,
    userEmail: Text,
    score: int,
    totalMarks: int,
    answers: seq<AnswerEntry>)

  /** An answer entry handed to `new Response(...)`; an absent or `null`
      answer is `JNull`. */
  datatype EntryInput = EntryInput(questionId: Option<string>, answer: Json, points: Option<int>)

  /** The fields handed to `new Response(...)`; the user fields are the
      values the request carried, `JNull` when absent. */
  datatype ResponseInput = ResponseInput(
    formId: Option<string>,
    userId: Json,
    userEmail: Json,
    score: Option<int>,
    totalMarks: Option<int>,
    answers: seq<EntryInput>)

  /** An object whose `_id` is a non-empty string: the `String` cast takes
      it for a document and stores its `_id`. */
  predicate HasStringId(v: Json) {
    v.JObj? && JsObject.Get(v.fields, "_id").Some? && JsObject.Get(v.fields, "_id").value.JStr?
    && JsObject.Get(v.fields, "_id").value.s != ""
  }

  /** Mongoose's cast of a value to a `String` path. `null` leaves the path
      unset (`None`), and so does a cast error: an array, or an object that
      is not taken for a document (a plain object's `toString` is the
      default one, which the cast refuses). A string is kept; a boolean or
      a number becomes its text. */
  function CastString(v: Json): (r: Option<Text>)
    ensures r.None? <==> v.JNull? || v.JArr? || (v.JObj? && !HasStringId(v))
    ensures v.JStr? ==> r == Some(Chars(v.s))
    ensures v.JBool? ==> r == Some(Chars(if v.b then "true" else "false"))
    ensures v.JNum? ==> r == Some(NumberText(v.n))
    ensures HasStringId(v) ==> r == Some(Chars(JsObject.Get(v.fields, "_id").value.s))
  {
    match v
    case JNull => None
    case JBool(b) => Some(Chars(if b then "true" else "false"))
    case JNum(n) => Some(NumberText(n))
    case JStr(s) => Some(Chars(s))
    case JArr(_) => None
    case JObj(_) => if HasStringId(v) then Some(Chars(JsObject.Get(v.fields, "_id").value.s)) else None
  }

  /** A required `String` path: the cast succeeds and is not the empty
      string. */
  predicate RequiredText(v: Json) {
    CastString(v).Some? && CastString(v).value != Chars("")
  }

  /** Of the truthy values, a required `String` path refuses exactly the
      arrays and the objects not taken for a document; every other truthy
      value is stored as a non-empty text. */
  lemma TruthyRequiredText(v: Json)
    requires Truthy(v)
    ensures RequiredText(v) <==> !(v.JArr? || (v.JObj? && !HasStringId(v)))
  {
  }

  /** An entry passes validation: it names its question and has an answer
      that is neither missing nor `null`. */
  predicate EntryAccepted(e: EntryInput) {
    e.questionId.Some? && e.answer != JNull
  }

  /** What every saved response satisfies. */
  predicate Valid(doc: ResponseDoc) {
    && doc.userId != Chars("")
    && doc.userEmail != Chars("")
    && forall i :: 0 <= i < |doc.answers| ==> doc.answers[i].answer != JNull
  }

  /** The entries with `points` defaulted to 0. */
  function Entries(es: seq<EntryInput>): (r: seq<AnswerEntry>)
    requires forall i :: 0 <= i < |es| ==> es[i].questionId.Some?
    ensures |r| == |es|
    ensures forall i :: 0 <= i < |es| ==>
      r[i] == AnswerEntry(es[i].questionId.value, es[i].answer, es[i].points.GetOr(0))
  {
    if es == [] then [] else [AnswerEntry(es[0].questionId.value, es[0].answer, es[0].points.GetOr(0))] + Entries(es[1..])
  }

  /** Validation on save: it fails (`None`) exactly when a required path is
      missing; otherwise `score` and `totalMarks` default to 0 and the
      result is a valid document holding the given values. */
  function Validate(input: ResponseInput): (r: Option<ResponseDoc>)
    ensures r.Some? <==>
      && input.formId.Some?
      && RequiredText(input.userId)
      && RequiredText(input.userEmail)
      && forall i :: 0 <= i < |input.answers| ==> EntryAccepted(input.answers[i])
    ensures r.Some? ==> Valid(r.value)
    ensures r.Some? ==> r.value.score == input.score.GetOr(0) && r.value.totalMarks == input.totalMarks.GetOr(0)
    ensures r.Some? ==> r.value.formId == input.formId.value && Some(r.value.userId) == CastString(input.userId) && Some(r.value.userEmail) == CastString(input.userEmail)
    ensures r.Some? ==> |r.value.answers| == |input.answers|
    ensures r.Some? ==> forall i :: 0 <= i < |input.answers| ==>
      && r.value.answers[i].questionId == input.answers[i].questionId.value
      && r.value.answers[i].answer == input.answers[i].answer
      && r.value.answers[i].points == input.answers[i].points.GetOr(0)
  {
    if && input.formId.Some?
       && RequiredText(input.userId)
       && RequiredText(input.userEmail)
       && forall i :: 0 <= i < |input.answers| ==> EntryAccepted(input.answers[i])
    then
      Some(ResponseDoc(input.formId.value, CastString(input.userId).value, CastString(input.userEmail).value,
        input.score.GetOr(0), input.totalMarks.GetOr(0), Entries(input.answers)))
    else None
  }

  /** A response given only its required fields scores 0 out of 0. */
  lemma DefaultsAreZero(formId: string, userId: string, userEmail: string)
    requires userId != "" && userEmail != ""
    ensures Validate(ResponseInput(Some(formId), JStr(userId), JStr(userEmail), None, None, []))
      == Some(ResponseDoc(formId, Chars(userId), Chars(userEmail), 0, 0, []))
  {
  }
}
