/** The per-question scoring rules of `createResponse`
    (`server/controllers/responseController.js`): every scorable question is
    worth 10 points, split evenly over its mcqs, items or blanks, and each
    sub-item that earns credit adds its share to an unrounded running sum. */
module Scoring {
  import opened Common
  import opened JsString
  import opened JsValues
  import opened QuestionModel

  /** `marksPerQuestion`. */
  const MarksPerQuestion: real := 10.0

  /** How many sub-items earn credit. */
  function Credits(marks: seq<bool>): (n: nat)
    ensures n <= |marks|
  {
    if marks == [] then 0 else Credits(marks[..|marks| - 1]) + (if marks[|marks| - 1] then 1 else 0)
  }

  /** Every sub-item earns credit exactly when the count reaches the number
      of sub-items, and none does exactly when the count is 0. */
  lemma {:induction false} CreditsExtremes(marks: seq<bool>)
    ensures Credits(marks) == |marks| <==> forall i :: 0 <= i < |marks| ==> marks[i]
    ensures Credits(marks) == 0 <==> forall i :: 0 <= i < |marks| ==> !marks[i]
  {
    if marks != [] {
      var init := marks[..|marks| - 1];
      CreditsExtremes(init);
      assert forall i :: 0 <= i < |init| ==> init[i] == marks[i];
    }
  }

  /** The running sum of a scoring loop: `pointsPer` added once for every
      credited sub-item, read from the first to the last. */
  function Accumulated(marks: seq<bool>, pointsPer: real): real {
    if marks == [] then 0.0
    else Accumulated(marks[..|marks| - 1], pointsPer) + (if marks[|marks| - 1] then pointsPer else 0.0)
  }

  /** Adding one more sub-item to the prefix read so far. */
  lemma AccumulatedPrefix(marks: seq<bool>, pointsPer: real, i: nat)
    requires i < |marks|
    ensures Accumulated(marks[..i + 1], pointsPer) == Accumulated(marks[..i], pointsPer) + (if marks[i] then pointsPer else 0.0)
  {
    assert marks[..i + 1][..|marks[..i + 1]| - 1] == marks[..i];
  }

  /** `m` shares of `pointsPer` added one after the other. */
  function Repeat(m: nat, pointsPer: real): real {
    if m == 0 then 0.0 else Repeat(m - 1, pointsPer) + pointsPer
  }

  lemma {:induction false} RepeatIsProduct(m: nat, pointsPer: real)
    ensures Repeat(m, pointsPer) == (m as real) * pointsPer
  {
    if m > 0 {
      RepeatIsProduct(m - 1, pointsPer);
    }
  }

  /** The running sum adds one share for each credited sub-item. */
  lemma {:induction false} AccumulatedIsRepeat(marks: seq<bool>, pointsPer: real)
    ensures Accumulated(marks, pointsPer) == Repeat(Credits(marks), pointsPer)
  {
    if marks != [] {
      AccumulatedIsRepeat(marks[..|marks| - 1], pointsPer);
    }
  }

  /** `10 * m / k`, the exact fraction of the marks that `m` credits out of
      `k` sub-items are worth. */
  function Fraction(m: nat, k: nat): real
    requires k > 0
  {
    MarksPerQuestion * (m as real) / (k as real)
  }

  /** The score of `m` credited sub-items out of `k`: `m` shares of `10 / k`,
      and 0 when there are no sub-items. */
  function Share(m: nat, k: nat): (r: real)
    requires m <= k
    ensures 0.0 <= r <= MarksPerQuestion
    ensures r == MarksPerQuestion <==> k > 0 && m == k
    ensures r == 0.0 <==> m == 0
  {
    if k == 0 then 0.0
    else
      RepeatIsProduct(m, MarksPerQuestion / k as real);
      Repeat(m, MarksPerQuestion / k as real)
  }

  /** With `k > 0` sub-items the score is the exact fraction `10 * m / k`. */
  lemma ShareFraction(m: nat, k: nat)
    requires m <= k && k > 0
    ensures Share(m, k) == Fraction(m, k)
  {
    RepeatIsProduct(m, MarksPerQuestion / k as real);
  }

  /** The score of a question whose sub-items are credited as `marks` say:
      `10 * m / k` for `m` credits out of `k > 0`, and 0 without sub-items. */
  function MarksScore(marks: seq<bool>): (r: real)
    ensures 0.0 <= r <= MarksPerQuestion
  {
    Share(Credits(marks), |marks|)
  }

  /** 10 exactly when every sub-item is credited, 0 exactly when none is. */
  lemma MarksScoreExtremes(marks: seq<bool>)
    ensures MarksScore(marks) == MarksPerQuestion <==> |marks| > 0 && forall i :: 0 <= i < |marks| ==> marks[i]
    ensures MarksScore(marks) == 0.0 <==> forall i :: 0 <= i < |marks| ==> !marks[i]
  {
    CreditsExtremes(marks);
  }

  /** A scoring loop over `k > 0` sub-items, each worth `10 / k`, ends with
      the question's score. */
  lemma LoopTotal(marks: seq<bool>)
    requires |marks| > 0
    ensures Accumulated(marks, MarksPerQuestion / |marks| as real) == Share(Credits(marks), |marks|)
  {
    AccumulatedIsRepeat(marks, MarksPerQuestion / |marks| as real);
  }

  // Comprehension

  /** `submittedAnswer.answer[mcq._id.toString()] === mcq.correctAnswer`: an
      mcq without a correct answer is credited when the answer has no key for it. */
  predicate McqEarns(answer: Json, mcq: Mcq) {
    StrictEquals(Get(answer, mcq.id), mcq.correctAnswer)
  }

  function McqMarks(answer: Json, mcqs: seq<Mcq>): (r: seq<bool>)
    ensures |r| == |mcqs|
    ensures forall i :: 0 <= i < |mcqs| ==> r[i] == McqEarns(answer, mcqs[i])
  {
    seq(|mcqs|, i requires 0 <= i < |mcqs| => McqEarns(answer, mcqs[i]))
  }

  /** A Comprehension question with `k > 0` mcqs scores `10 * m / k` for the
      `m` mcqs answered correctly, and 0 without mcqs. */
  function ComprehensionScore(answer: Json, mcqs: seq<Mcq>): (r: real)
    ensures 0.0 <= r <= MarksPerQuestion
  {
    MarksScore(McqMarks(answer, mcqs))
  }

  /** With at least one sub-item the score is `10 * m / k` for the `m`
      credited out of `k`. */
  lemma ComprehensionFraction(answer: Json, mcqs: seq<Mcq>)
    requires |mcqs| > 0
    ensures ComprehensionScore(answer, mcqs) == Fraction(Credits(McqMarks(answer, mcqs)), |mcqs|)
  {
    ShareFraction(Credits(McqMarks(answer, mcqs)), |mcqs|);
  }

  /** The scoring loop's running sum ends with the question's score. */
  lemma ComprehensionLoopTotal(answer: Json, mcqs: seq<Mcq>)
    requires |mcqs| > 0
    ensures Accumulated(McqMarks(answer, mcqs), MarksPerQuestion / |mcqs| as real) == ComprehensionScore(answer, mcqs)
  {
    LoopTotal(McqMarks(answer, mcqs));
  }

  /** Full marks exactly when every mcq is answered correctly, 0 exactly
      when none is. */
  lemma ComprehensionExtremes(answer: Json, mcqs: seq<Mcq>)
    ensures ComprehensionScore(answer, mcqs) == MarksPerQuestion <==> |mcqs| > 0 && forall i :: 0 <= i < |mcqs| ==> McqEarns(answer, mcqs[i])
    ensures ComprehensionScore(answer, mcqs) == 0.0 <==> forall i :: 0 <= i < |mcqs| ==> !McqEarns(answer, mcqs[i])
  {
    MarksScoreExtremes(McqMarks(answer, mcqs));
  }

  // Categorize

  /** `Array.isArray(answer[key]) && answer[key].includes(text)`. */
  predicate InBucket(answer: Json, key: string, text: Option<string>) {
    ArrayIncludes(Get(answer, key), text)
  }

  /** The first index, from `from` on, of a key whose bucket holds `text`. */
  function FirstBucketFrom(answer: Json, keys: seq<string>, text: Option<string>, from: nat): (r: Option<nat>)
    requires from <= |keys|
    ensures r.Some? ==> from <= r.value < |keys| && InBucket(answer, keys[r.value], text)
    ensures r.Some? ==> forall j :: from <= j < r.value ==> !InBucket(answer, keys[j], text)
    ensures r.None? ==> forall j :: from <= j < |keys| ==> !InBucket(answer, keys[j], text)
    decreases |keys| - from
  {
    if from == |keys| then None
    else if InBucket(answer, keys[from], text) then Some(from)
    else FirstBucketFrom(answer, keys, text, from + 1)
  }

  /** `Object.keys(answer).find(cat => ...)`: the first bucket, in key
      order, whose array contains the item text. */
  function SubmittedCategory(answer: Json, text: Option<string>): (r: Option<string>)
    ensures r.Some? ==> r.value in Keys(answer) && InBucket(answer, r.value, text)
    ensures r.None? <==> forall j :: 0 <= j < |Keys(answer)| ==> !InBucket(answer, Keys(answer)[j], text)
  {
    var keys := Keys(answer);
    match FirstBucketFrom(answer, keys, text, 0)
    case None => None
    case Some(i) => Some(keys[i])
  }

  /** The bucket found is the first one holding the text: every key before
      the key at index `i` holds a bucket without it. */
  lemma SubmittedCategoryFirst(answer: Json, text: Option<string>, i: nat)
    requires i < |Keys(answer)| && InBucket(answer, Keys(answer)[i], text)
    requires forall j :: 0 <= j < i ==> !InBucket(answer, Keys(answer)[j], text)
    ensures SubmittedCategory(answer, text) == Some(Keys(answer)[i])
  {
    var r := FirstBucketFrom(answer, Keys(answer), text, 0);
    assert r.Some?;
    assert !(r.value < i);
    assert !(r.value > i);
  }

  /** `submittedCategory === item.category`: an item without a category is
      credited when its text is in no bucket. */
  predicate ItemEarns(answer: Json, item: Item) {
    SubmittedCategory(answer, item.text) == item.category
  }

  function ItemMarks(answer: Json, items: seq<Item>): (r: seq<bool>)
    ensures |r| == |items|
    ensures forall i :: 0 <= i < |items| ==> r[i] == ItemEarns(answer, items[i])
  {
    seq(|items|, i requires 0 <= i < |items| => ItemEarns(answer, items[i]))
  }

  /** A Categorize question with `n > 0` items scores `10 * m / n` for the
      `m` items credited, and 0 without items. */
  function CategorizeScore(answer: Json, items: seq<Item>): (r: real)
    ensures 0.0 <= r <= MarksPerQuestion
  {
    MarksScore(ItemMarks(answer, items))
  }

  /** With at least one sub-item the score is `10 * m / k` for the `m`
      credited out of `k`. */
  lemma CategorizeFraction(answer: Json, items: seq<Item>)
    requires |items| > 0
    ensures CategorizeScore(answer, items) == Fraction(Credits(ItemMarks(answer, items)), |items|)
  {
    ShareFraction(Credits(ItemMarks(answer, items)), |items|);
  }

  /** The scoring loop's running sum ends with the question's score. */
  lemma CategorizeLoopTotal(answer: Json, items: seq<Item>)
    requires |items| > 0
    ensures Accumulated(ItemMarks(answer, items), MarksPerQuestion / |items| as real) == CategorizeScore(answer, items)
  {
    LoopTotal(ItemMarks(answer, items));
  }

  /** Full marks exactly when every item is credited, 0 exactly when none is. */
  lemma CategorizeExtremes(answer: Json, items: seq<Item>)
    ensures CategorizeScore(answer, items) == MarksPerQuestion <==> |items| > 0 && forall i :: 0 <= i < |items| ==> ItemEarns(answer, items[i])
    ensures CategorizeScore(answer, items) == 0.0 <==> forall i :: 0 <= i < |items| ==> !ItemEarns(answer, items[i])
  {
    MarksScoreExtremes(ItemMarks(answer, items));
  }

  /** An item whose text only sits in buckets other than its category (the
      first holding it being, say, `unassigned`) earns nothing; an item in no
      bucket at all earns credit exactly when it has no category. */
  lemma ItemPlacement(answer: Json, item: Item, i: nat)
    requires i < |Keys(answer)| && InBucket(answer, Keys(answer)[i], item.text)
    requires forall j :: 0 <= j < i ==> !InBucket(answer, Keys(answer)[j], item.text)
    ensures ItemEarns(answer, item) <==> item.category == Some(Keys(answer)[i])
  {
    SubmittedCategoryFirst(answer, item.text, i);
  }

  // Cloze

  /** The key of blank `i`: `` `blank_${i}` ``. */
  function BlankKey(i: nat): (k: string)
    ensures StartsWith(k, "blank_")
    ensures |k| > 6 && k[6..] == NatToString(i)
  {
    "blank_" + NatToString(i)
  }

  /** Distinct blanks have distinct keys. */
  lemma BlankKeyInjective(i: nat, j: nat)
    requires BlankKey(i) == BlankKey(j)
    ensures i == j
  {
    assert BlankKey(i)[6..] == BlankKey(j)[6..];
    NatToStringInjective(i, j);
  }

  /** `submittedAnswer.answer[`blank_${i}`] === correctClozeAnswers[i]`. */
  predicate BlankEarns(answer: Json, options: seq<string>, i: nat)
    requires i < |options|
  {
    StrictEquals(Get(answer, BlankKey(i)), Some(options[i]))
  }

  function BlankMarks(answer: Json, options: seq<string>): (r: seq<bool>)
    ensures |r| == |options|
    ensures forall i :: 0 <= i < |options| ==> r[i] == BlankEarns(answer, options, i)
  {
    seq(|options|, i requires 0 <= i < |options| => BlankEarns(answer, options, i))
  }

  /** A Cloze question whose key `options` has `n > 0` entries scores
      `10 * m / n` for the `m` blanks filled with their own option, and 0
      without options. */
  function ClozeScore(answer: Json, options: seq<string>): (r: real)
    ensures 0.0 <= r <= MarksPerQuestion
  {
    MarksScore(BlankMarks(answer, options))
  }

  /** With at least one sub-item the score is `10 * m / k` for the `m`
      credited out of `k`. */
  lemma ClozeFraction(answer: Json, options: seq<string>)
    requires |options| > 0
    ensures ClozeScore(answer, options) == Fraction(Credits(BlankMarks(answer, options)), |options|)
  {
    ShareFraction(Credits(BlankMarks(answer, options)), |options|);
  }

  /** The scoring loop's running sum ends with the question's score. */
  lemma ClozeLoopTotal(answer: Json, options: seq<string>)
    requires |options| > 0
    ensures Accumulated(BlankMarks(answer, options), MarksPerQuestion / |options| as real) == ClozeScore(answer, options)
  {
    LoopTotal(BlankMarks(answer, options));
  }

  /** Full marks exactly when every blank holds its own option, 0 exactly
      when none does. */
  lemma ClozeExtremes(answer: Json, options: seq<string>)
    ensures ClozeScore(answer, options) == MarksPerQuestion <==> |options| > 0 && forall i :: 0 <= i < |options| ==> BlankEarns(answer, options, i)
    ensures ClozeScore(answer, options) == 0.0 <==> forall i :: 0 <= i < |options| ==> !BlankEarns(answer, options, i)
  {
    MarksScoreExtremes(BlankMarks(answer, options));
  }

  // The switch on the question type

  /** The scoring code reads `submittedAnswer.answer` only for a scorable
      question with at least one sub-item; reading a `null` answer throws. */
  predicate ReadsAnswer(q: Question) {
    || (q.kind == Comprehension && |q.mcqs| > 0)
    || (q.kind == Categorize && |q.items| > 0)
    || (q.kind == Cloze && |q.options| > 0)
  }

  /** `questionScore` after the `switch`: every score lies in `[0, 10]`, and
      a Heading, Paragraph or Banner, or a question without sub-items, scores 0. */
  function QuestionScore(q: Question, answer: Json): (r: real)
    requires answer != JNull || !ReadsAnswer(q)
    ensures 0.0 <= r <= MarksPerQuestion
    ensures !ReadsAnswer(q) ==> r == 0.0
  {
    MarksScore(QuestionMarks(q, answer))
  }

  /** Which sub-items of the question earn credit: its mcqs, items or
      blanks, and none for a Heading, Paragraph or Banner. */
  function QuestionMarks(q: Question, answer: Json): (r: seq<bool>)
    ensures !ReadsAnswer(q) ==> r == []
  {
    match q.kind
    case Comprehension => McqMarks(answer, q.mcqs)
    case Categorize => ItemMarks(answer, q.items)
    case Cloze => BlankMarks(answer, q.options)
    case _ => []
  }

  /** The Comprehension case: one pass over the mcqs adding `pointsPerMcq`
      for each correct one. */
  method ScoreComprehension(mcqs: seq<Mcq>, answer: Json) returns (questionScore: real)
    requires answer != JNull || |mcqs| == 0
    ensures questionScore == ComprehensionScore(answer, mcqs)
  {
    questionScore := 0.0;
    if |mcqs| > 0 {
      var pointsPerMcq := MarksPerQuestion / |mcqs| as real;
      ghost var marks := McqMarks(answer, mcqs);
      var i := 0;
      while i < |mcqs|
        invariant 0 <= i <= |mcqs|
        invariant questionScore == Accumulated(marks[..i], pointsPerMcq)
      {
        AccumulatedPrefix(marks, pointsPerMcq, i);
        if StrictEquals(Get(answer, mcqs[i].id), mcqs[i].correctAnswer) {
          questionScore := questionScore + pointsPerMcq;
        }
        i := i + 1;
      }
      assert marks[..i] == marks;
      ComprehensionLoopTotal(answer, mcqs);
    }
  }

  /** The Categorize case: one pass over the items adding `pointsPerItem`
      for each item found first in its own category. */
  method ScoreCategorize(items: seq<Item>, answer: Json) returns (questionScore: real)
    requires answer != JNull || |items| == 0
    ensures questionScore == CategorizeScore(answer, items)
  {
    questionScore := 0.0;
    if |items| > 0 {
      var pointsPerItem := MarksPerQuestion / |items| as real;
      ghost var marks := ItemMarks(answer, items);
      var i := 0;
      while i < |items|
        invariant 0 <= i <= |items|
        invariant questionScore == Accumulated(marks[..i], pointsPerItem)
      {
        AccumulatedPrefix(marks, pointsPerItem, i);
        var submittedCategory := SubmittedCategory(answer, items[i].text);
        if submittedCategory == items[i].category {
          questionScore := questionScore + pointsPerItem;
        }
        i := i + 1;
      }
      assert marks[..i] == marks;
      CategorizeLoopTotal(answer, items);
    }
  }

  /** The Cloze case: one pass over the blanks adding `pointsPerBlank` for
      each blank holding its own option. */
  method ScoreCloze(correctClozeAnswers: seq<string>, answer: Json) returns (questionScore: real)
    requires answer != JNull || |correctClozeAnswers| == 0
    ensures questionScore == ClozeScore(answer, correctClozeAnswers)
  {
    questionScore := 0.0;
    if |correctClozeAnswers| > 0 {
      var pointsPerBlank := MarksPerQuestion / |correctClozeAnswers| as real;
      ghost var marks := BlankMarks(answer, correctClozeAnswers);
      var i := 0;
      while i < |correctClozeAnswers|
        invariant 0 <= i <= |correctClozeAnswers|
        invariant questionScore == Accumulated(marks[..i], pointsPerBlank)
      {
        AccumulatedPrefix(marks, pointsPerBlank, i);
        if StrictEquals(Get(answer, "blank_" + NatToString(i)), Some(correctClozeAnswers[i])) {
          questionScore := questionScore + pointsPerBlank;
        }
        i := i + 1;
      }
      assert marks[..i] == marks;
      ClozeLoopTotal(answer, correctClozeAnswers);
    }
  }

  /** The `switch (question.type)` of the scoring loop. */
  method ScoreQuestion(q: Question, answer: Json) returns (questionScore: real)
    requires answer != JNull || !ReadsAnswer(q)
    ensures questionScore == QuestionScore(q, answer)
  {
    match q.kind {
      case Comprehension =>
        questionScore := ScoreComprehension(q.mcqs, answer);
      case Categorize =>
        questionScore := ScoreCategorize(q.items, answer);
      case Cloze =>
        questionScore := ScoreCloze(q.options, answer);
      case _ =>
        questionScore := 0.0;
    }
  }
}
