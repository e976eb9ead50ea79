/** The stored question document (`server/models/Question.js`): a required
    type tag from a fixed list, a display text and image with defaults, and
    the fields of the three scorable kinds. Mongoose gives every array a
    default of `[]` and every array element (item, mcq) its own `_id`. */
module QuestionModel {
  import opened Common

  /** The values the schema's `type` enum admits. */
  datatype QuestionType = Categorize | Cloze | Comprehension | Heading | Paragraph | Banner

  /** The tag stored in the document. */
  function TypeName(t: QuestionType): (s: string)
    ensures s in TypeNames
  {
    match t
    case Categorize => "Categorize"
    case Cloze => "Cloze"
    case Comprehension => "Comprehension"
    case Heading => "Heading"
    case Paragraph => "Paragraph"
    case Banner => "Banner"
  }

  const TypeNames: set<string> := {"Categorize", "Cloze", "Comprehension", "Heading", "Paragraph", "Banner"}

  /** The enum validator: a tag is accepted exactly when it is one of the six
      names, and it is read back as the type it names. */
  function ParseType(s: string): (r: Option<QuestionType>)
    ensures r.Some? <==> s in TypeNames
    ensures r.Some? ==> TypeName(r.value) == s
  {
    if s == "Categorize" then Some(Categorize)
    else if s == "Cloze" then Some(Cloze)
    else if s == "Comprehension" then Some(Comprehension)
    else if s == "Heading" then Some(Heading)
    else if s == "Paragraph" then Some(Paragraph)
    else if s == "Banner" then Some(Banner)
    else None
  }

  /** Storing a type and validating its tag gives the type back, and distinct
      types have distinct tags. */
  lemma ParseTypeName(t: QuestionType, u: QuestionType)
    ensures ParseType(TypeName(t)) == Some(t)
    ensures TypeName(t) == TypeName(u) ==> t == u
  {
  }

  /** One Categorize item: a text to place and the category it belongs to;
      neither is required. */
  datatype Item = Item(id: string, text: Option<string>, category: Option<string>)

  /** One multiple-choice question of a Comprehension question. */
  datatype Mcq = Mcq(id: string, questionText: Option<string>, options: seq<string>, correctAnswer: Option<string>)

  /** A stored question. `kind` is the `type` field. `categories`/`items` are
      the Categorize fields, `passage`/`options` the Cloze fields (`options[i]`
      is the answer of blank `i`), `comprehensionPassage`/`mcqs` the
      Comprehension fields. */
  datatype Question = Question(
    id: string,
    kind: QuestionType,
    text: string,
    image: Option<string>,
    categories: seq<string>,
    items: seq<Item>,
    passage: Option<string>,
    options: seq<string>,
    comprehensionPassage: Option<string>,
    mcqs: seq<Mcq>)

  /** The fields handed to `new Question(...)`: every field may be absent;
      `image` is absent or `null` as `None`. */
  datatype QuestionInput = QuestionInput(
    kind: Option<string>,
    text: Option<string>,
    image: Option<string>,
    categories: Option<seq<string>>,
    items: Option<seq<Item>>,
    passage: Option<string>,
    options: Option<seq<string>>,
    comprehensionPassage: Option<string>,
    mcqs: Option<seq<Mcq>>)

  /** Validating and filling in a new document: `None` is a validation
      error, raised exactly when the type is missing or not in the enum;
      otherwise `text` defaults to `''`, `image` to `null` and every array to
      `[]`, and the given fields are kept. */
  function CreateQuestion(id: string, input: QuestionInput): (r: Option<Question>)
    ensures r.Some? <==> input.kind.Some? && input.kind.value in TypeNames
    ensures r.Some? ==> TypeName(r.value.kind) == input.kind.value && r.value.id == id
    ensures r.Some? ==> r.value.text == (if input.text.Some? then input.text.value else "")
    ensures r.Some? ==> r.value.image == input.image
    ensures r.Some? && input.options.None? ==> r.value.options == []
    ensures r.Some? && input.options.Some? ==> r.value.options == input.options.value
    ensures r.Some? ==> r.value.categories == input.categories.GetOr([])
    ensures r.Some? ==> r.value.items == input.items.GetOr([])
    ensures r.Some? ==> r.value.mcqs == input.mcqs.GetOr([])
    ensures r.Some? ==> r.value.passage == input.passage && r.value.comprehensionPassage == input.comprehensionPassage
  {
    if input.kind.None? then None
    else match ParseType(input.kind.value)
      case None => None
      case Some(t) =>
        Some(Question(id, t, input.text.GetOr(""), input.image,
          input.categories.GetOr([]), input.items.GetOr([]), input.passage,
          input.options.GetOr([]), input.comprehensionPassage, input.mcqs.GetOr([])))
  }

  /** A question `new Question({type})` creates with nothing else given: empty
      text, no image, no sub-items. */
  lemma CreateBare(id: string, t: QuestionType)
    ensures var q := CreateQuestion(id, QuestionInput(Some(TypeName(t)), None, None, None, None, None, None, None, None));
      q == Some(Question(id, t, "", None, [], [], None, [], None, []))
  {
    ParseTypeName(t, t);
  }
}
