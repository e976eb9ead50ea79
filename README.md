# Forms application: scoring, answer payloads, answer keys and result cards

This project models the core of a form-building web application. Authors build forms whose
questions are of several types: Categorize, Cloze, Comprehension, the display-only Heading,
Paragraph and Banner, and the choice types of the builder. Respondents answer them in the browser,
and a server handler scores the submission. The model covers four parts:

- **Server scoring.** `createResponse` checks the respondent and finds the form. It scores every
  submitted answer against the form's questions and validates the resulting response document.
  - Comprehension: one share per mcq answered with its exact `correctAnswer`.
  - Categorize: one share per item whose first bucket (in key order) is its own category.
  - Cloze: one share per blank `blank_i` holding option `i`.
  - points: round(question score) per answer; `score`: round(sum of unrounded scores); `totalMarks`: 10 per question of the form.
- **Answer payloads.** The respondent's renderers build the answers the server scores:
  - the Categorize bucket board and its drag-and-drop move;
  - the Cloze word-into-blank drop;
  - the Comprehension selection report.
- **Answer keys.** The author's builders produce the question documents, including:
  - the Cloze option/blank alignment;
  - the Comprehension first-option key;
  - the option-list edits of the Categorize, Checkbox, Multiple Choice, Dropdown and Picture
    Choice editors.
- **Result cards.** The result card gives the Correct / Partially Correct / Incorrect / Submitted
  badge, plus the breakdown lines of a Comprehension mcq and a category.

JavaScript is modelled where its semantics matter:

- `undefined` is `None`.
- Objects are ordered key/value sequences, in insertion order.
- Strict equality on `undefined` and strings, and truthiness, follow JavaScript.
- `Math.round` is `Floor(x + 1/2)`.
- Scores are exact reals.

Stateful UI components are classes whose methods are proved against pure transition functions.
The server loop and the Comprehension report loop are methods with loop invariants, proved against
recursive reference definitions.

The inputs are parameters:

- the populated form given to `createResponse` (the database lookup);
- the uploaded image URL given to the builders (the upload service);
- the selection offsets given to the Cloze editor (the DOM).

## Model

| member | source | states |
|---|---|---|
| Scoring.Credits | server/controllers/responseController.js:83-87 | the number of credited sub-items never exceeds the number of sub-items |
| Scoring.CreditsExtremes | server/controllers/responseController.js:78-116 | the count reaches the number of sub-items exactly when every one is credited, and is 0 exactly when none is |
| Scoring.AccumulatedPrefix | server/controllers/responseController.js:83-87 | one loop step adds the share exactly when that sub-item is credited |
| Scoring.RepeatIsProduct | server/controllers/responseController.js:85 | adding the share m times gives m times the share |
| Scoring.AccumulatedIsRepeat | server/controllers/responseController.js:83-87 | the running sum is one share per credited sub-item, whatever their positions |
| Scoring.Share | server/controllers/responseController.js:81-88 | m shares of 10/k lie in [0, 10], are 10 exactly when k > 0 and all are credited, 0 exactly when none is |
| Scoring.ShareFraction | server/controllers/responseController.js:82 | with k > 0 sub-items the score is exactly 10·m/k |
| Scoring.MarksScore | server/controllers/responseController.js:78-116 | every per-question score lies in [0, 10] |
| Scoring.MarksScoreExtremes | server/controllers/responseController.js:78-116 | full marks exactly when there are sub-items and all are credited; 0 exactly when none is |
| Scoring.LoopTotal | server/controllers/responseController.js:82-87 | a scoring loop over k > 0 sub-items, each worth 10/k, ends with m shares |
| Scoring.McqMarks | server/controllers/responseController.js:83-87 | mcq i is credited exactly when the answer under its id strictly equals its `correctAnswer` (an absent key equals an absent key) |
| Scoring.ComprehensionScore | server/controllers/responseController.js:80-89 | a Comprehension score lies in [0, 10] |
| Scoring.ComprehensionFraction | server/controllers/responseController.js:80-89 | with k > 0 mcqs the score is 10·m/k for the m mcqs answered correctly |
| Scoring.ComprehensionLoopTotal | server/controllers/responseController.js:81-88 | the `forEach` running sum ends with the Comprehension score |
| Scoring.ComprehensionExtremes | server/controllers/responseController.js:80-89 | 10 exactly when there are mcqs and all are right; 0 exactly when none is, including no mcqs |
| Scoring.FirstBucketFrom | server/controllers/responseController.js:95-97 | the bucket found holds the text in an array, no earlier bucket does, and none is found only when no bucket holds it |
| Scoring.SubmittedCategory | server/controllers/responseController.js:95-97 | the category found is a key whose array value contains the text; non-array values never match; none exactly when no bucket holds the text |
| Scoring.SubmittedCategoryFirst | server/controllers/responseController.js:95-97 | the first key, in key order, holding the text is the one found |
| Scoring.ItemMarks | server/controllers/responseController.js:94-101 | item i is credited exactly when the category found for its text strictly equals its `category` |
| Scoring.CategorizeScore | server/controllers/responseController.js:91-103 | a Categorize score lies in [0, 10] |
| Scoring.CategorizeFraction | server/controllers/responseController.js:91-103 | with n > 0 items the score is 10·m/n for the m items credited |
| Scoring.CategorizeLoopTotal | server/controllers/responseController.js:92-102 | the `forEach` running sum ends with the Categorize score |
| Scoring.CategorizeExtremes | server/controllers/responseController.js:91-103 | 10 exactly when there are items and all are credited; 0 exactly when none is |
| Scoring.ItemPlacement | server/controllers/responseController.js:95-98 | an item whose text first appears in bucket i earns credit exactly when its category is that bucket's key |
| Scoring.BlankKey | server/controllers/responseController.js:110 | the key of blank i is `blank_` followed by the decimal digits of i |
| Scoring.BlankKeyInjective | server/controllers/responseController.js:110 | distinct blanks read distinct keys |
| Scoring.BlankMarks | server/controllers/responseController.js:109-113 | blank i is credited exactly when `answer["blank_i"]` strictly equals `options[i]` |
| Scoring.ClozeScore | server/controllers/responseController.js:105-115 | a Cloze score lies in [0, 10] |
| Scoring.ClozeFraction | server/controllers/responseController.js:105-115 | with k > 0 options the score is 10·m/k for the m blanks holding their own option |
| Scoring.ClozeLoopTotal | server/controllers/responseController.js:107-114 | the `for` running sum ends with the Cloze score |
| Scoring.ClozeExtremes | server/controllers/responseController.js:105-115 | 10 exactly when there are options and every blank holds its own; 0 exactly when none does |
| Scoring.QuestionScore | server/controllers/responseController.js:78-116 | a question's score lies in [0, 10]; Heading, Paragraph, Banner and questions without sub-items score 0 |
| Scoring.QuestionMarks | server/controllers/responseController.js:78-116 | questions whose score does not read the answer have no credited sub-items |
| Scoring.ScoreComprehension | server/controllers/responseController.js:80-89 | the `forEach` loop computes exactly the Comprehension score |
| Scoring.ScoreCategorize | server/controllers/responseController.js:91-103 | the nested `forEach`/`find` loops compute exactly the Categorize score |
| Scoring.ScoreCloze | server/controllers/responseController.js:105-115 | the `for` loop computes exactly the Cloze score |
| Scoring.ScoreQuestion | server/controllers/responseController.js:78-116 | the `switch` computes exactly the question's score |
| ResponseController.AsSubmitted | server/controllers/responseController.js:75-121 | a `null` element is kept as such; otherwise an element's `questionId` is read only from an object's own string field, and its `answer` from the object's field (`null` when absent); other elements cite no question |
| ResponseController.AnswerList | server/controllers/responseController.js:74-75 | the loop cannot start (a 500) exactly when `answers` is neither an array nor a string; otherwise one element per array entry, `null` entries included, read as above, or one per character of a string, none citing a question |
| ResponseController.FindQuestion | server/controllers/responseController.js:75 | a question found belongs to the form and has the cited id |
| ResponseProperties.FindQuestionAt | server/controllers/responseController.js:75 | `find` returns the question at position k when no earlier question has its id |
| ResponseController.FindQuestionNone | server/controllers/responseController.js:75-76 | no question is found exactly when no question of the form has the id |
| ResponseController.StepNullElement | server/controllers/responseController.js:75 | a `null` element throws exactly when the form has a question, since `find` calls its callback only then; on a form without questions it changes nothing |
| ResponseController.ScoredSnoc | server/controllers/responseController.js:74-123 | the loop state after one more answer is one more step; a thrown loop stays thrown |
| ResponseController.StepThrows | server/controllers/responseController.js:78-116 | an answer to a found question throws exactly when it is `null` and the scoring code reads it |
| ResponseController.StepSkips | server/controllers/responseController.js:75-76 | an answer citing no question leaves the score and the entries unchanged |
| ResponseController.StepScores | server/controllers/responseController.js:118-122 | an answer to a found question adds its unrounded score to the total and pushes one entry with the rounded score |
| ResponseController.ScoredNext | server/controllers/responseController.js:74-123 | the loop state after answer i is one step from the state before it |
| ResponseController.Submit | server/controllers/responseController.js:56-143 | 400 exactly when the user id or email is falsy; 404 exactly when both are truthy and the form is missing; 500 when `answers` cannot be iterated, the loop throws, or the `String` cast refuses a user field; 201 only when scoring does not throw. A 201 is valid and has `totalMarks` = 10 × all questions, `score` = round(total), the request's user fields as cast, and the form's id |
| ResponseController.ThrowIsFinal | server/controllers/responseController.js:57-142 | once an answer throws, the handler fails whatever follows |
| ResponseController.ScoreAnswers | server/controllers/responseController.js:74-123 | the `for…of` loop computes exactly the reference loop state, `None` when it throws |
| ResponseController.CreateResponse | server/controllers/responseController.js:56-143 | the handler's outcome is exactly `Submit` |
| ResponseProperties.ScoreOf | server/controllers/responseController.js:78-116 | every answer earns between 0 and 10 |
| ResponseProperties.Matched | server/controllers/responseController.js:75-76 | the answers kept are a subsequence, no longer than the submission |
| ResponseProperties.MatchedMembers | server/controllers/responseController.js:75-76 | an answer is kept exactly when it cites a question of the form |
| ResponseProperties.TotalOf | server/controllers/responseController.js:118 | the sum of n unrounded scores lies in [0, 10·n] |
| ResponseProperties.EntriesOf | server/controllers/responseController.js:119-122 | one entry per kept answer |
| ResponseProperties.EntriesOfAt | server/controllers/responseController.js:119-122 | entry i is answer i with `points` = round of its score |
| ResponseProperties.ScoredThrows | server/controllers/responseController.js:74-123 | the loop throws exactly when some element is `null` and the form has a question, or some answer to a question of the form is `null` where the scoring code reads it |
| ResponseProperties.ScoredReference | server/controllers/responseController.js:74-123 | the loop's total is the sum over the kept answers, and its entries are theirs in submission order; unknown answers add nothing |
| ResponseProperties.ReferenceStep | server/controllers/responseController.js:74-123 | one more answer keeps the loop state equal to the reference |
| ResponseProperties.KnownStep | server/controllers/responseController.js:118-122 | an answer to a known question extends both the total and the entries by its own contribution |
| ResponseProperties.ReferenceSnoc | server/controllers/responseController.js:118-122 | the reference total and entries grow by one answer's score and entry |
| ResponseProperties.UnknownAnswerSkipped | server/controllers/responseController.js:75-76 | deleting an answer that cites no question, from any position, does not change the result |
| ResponseProperties.ServerErrorExactly | server/controllers/responseController.js:58-142 | with truthy user fields and a form, the handler answers 500 exactly when `answers` is absent, `null` or not iterable, or a user field is an array or an object without a non-empty string `_id`, or `answers` holds a `null` element while the form has a question, or an answer to a known question is `null`; 201 otherwise |
| ResponseProperties.NumberUserIdStored | server/controllers/responseController.js:58-138 | a non-zero number sent as `userId` passes the check and is saved as its text |
| ResponseProperties.PlainObjectUserIdFails | server/controllers/responseController.js:58-141 | a plain object sent as `userId` passes the 400 check and is a 500 at save, whatever the form and the answers |
| ResponseProperties.DocumentUserIdStored | server/models/Response.js:7 | an object `userId` with a non-empty string `_id` is saved as that `_id` |
| ResponseProperties.EntriesAccepted | server/models/Response.js:13-14 | every pushed entry passes the model's validation exactly when no answer to a known question is `null` |
| ResponseProperties.NothingCitedScoresNothing | server/controllers/responseController.js:74-76 | answers that cite no question leave the total at 0 and push no entry |
| ResponseProperties.TextAnswersStoreNothing | server/controllers/responseController.js:74-138 | a text sent as `answers` is iterated by character: with a user and a form the response is saved, with no answers and score 0 |
| ResponseProperties.EmptyFormScoresNothing | server/controllers/responseController.js:74-76 | on a form without questions every element, `null` included, is skipped: the total is 0 and no entry is pushed |
| ResponseProperties.EmptyFormStoresNothing | server/controllers/responseController.js:56-138 | with a user, a form without questions and iterable `answers`, the response is saved with score 0, totalMarks 0 and no answers |
| ResponseProperties.AllKnownMatched | server/controllers/responseController.js:75-76 | when every answer cites a question of the form, all are kept |
| ResponseProperties.UniformTotal | server/controllers/responseController.js:118 | n kept answers that each earn s add up to n·s |
| ResponseProperties.UniformPoints | server/controllers/responseController.js:119-122 | n kept answers that each earn s store n·round(s) points |
| ResponseProperties.UniformTally | server/controllers/responseController.js:74-123 | when every answer cites a question, is not `null` and earns s, the loop does not throw, totals n·s, stores n·round(s) points and pushes only entries the model accepts |
| ResponseProperties.SavedTally | server/controllers/responseController.js:118-138 | a loop state whose entries the model accepts is saved as a 201 with score round(total) and the entries' points |
| ResponseProperties.FirstOnlyScore | server/controllers/responseController.js:80-89 | a Comprehension question of three mcqs answered right on one earns 10/3, stored as 3 points |
| ResponseProperties.FirstOnlyAnswersEarn | server/controllers/responseController.js:74-89 | n such answers, each citing its own question, are all kept and each earns 10/3 |
| ResponseProperties.PointsAndScoreDifferByTwo | server/controllers/responseController.js:118-131 | five answers of 10/3 store 15 points while the score is round(50/3) = 17 |
| ResponseProperties.RepeatedAnswerExceedsMarks | server/controllers/responseController.js:69-131 | answering a one-question form twice, right both times, scores 20 out of 10 total marks |
| ResponseProperties.ScoreWithinMarks | server/controllers/responseController.js:69-131 | when no question is answered twice, 0 ≤ score ≤ totalMarks |
| ResponseProperties.DistinctCitesBounded | server/controllers/responseController.js:74-76 | answers citing distinct questions of the form are no more than the form's questions |
| ResponseProperties.PointsNearTotal | server/controllers/responseController.js:118-122 | the sum of n rounded points lies within n/2 of the unrounded total |
| ResponseProperties.ScoreVersusPoints | server/controllers/responseController.js:118-131 | the stored points and the stored score differ by less than (n+1)/2 over n entries |
| ResponseProperties.NonScorableRecorded | server/controllers/responseController.js:78-122 | an answer to a Heading, Paragraph or Banner is still recorded, in its position, with 0 points |
| ResponseProperties.GuardsBeforeScoring | server/controllers/responseController.js:58-67 | whether the outcome is 400 or 404 does not depend on the answers |
| QuestionModel.TypeName | server/models/Question.js:5-10 | every stored type tag is one of the six enum names |
| QuestionModel.ParseType | server/models/Question.js:5-10 | a type tag is accepted exactly when it is one of the six names, and is read back as the type it names |
| QuestionModel.ParseTypeName | server/models/Question.js:5-10 | validating a stored tag gives its type back; distinct types have distinct tags |
| QuestionModel.CreateQuestion | server/models/Question.js:4-35 | a document is created exactly when its type tag is in the enum. `text` defaults to '', each of `categories`, `items`, `options` and `mcqs` to [], and every given field, `image`, `passage` and `comprehensionPassage` included, is kept |
| QuestionModel.CreateBare | server/models/Question.js:12-34 | a question given only its type has empty text, no image and no sub-items |
| ResponseModel.Entries | server/models/Response.js:12-16 | each answer entry keeps its question id and answer, with `points` defaulting to 0 |
| ResponseModel.CastString | server/models/Response.js:7-8 | the `String` cast keeps a string, turns a boolean or a number into its text and an object with a non-empty string `_id` into that `_id`; it leaves `null` unset and refuses an array or any other object |
| ResponseModel.TruthyRequiredText | server/models/Response.js:7-8 | of the truthy values, the required `String` paths refuse exactly arrays and objects without a non-empty string `_id` |
| ResponseModel.Validate | server/models/Response.js:4-18 | a response is accepted exactly when `formId` is present, `userId` and `userEmail` cast to non-empty texts, and every entry has its `questionId` and a non-null `answer`; `score`/`totalMarks` default to 0; the given values are kept, the user fields as cast |
| ResponseModel.DefaultsAreZero | server/models/Response.js:9-10 | a response given only its required fields scores 0 out of 0 |
| AnswerCard.StatusFor | client/src/components/results/AnswerCard.jsx:144-166 | exactly one badge applies. A non-scorable type is Submitted whatever its points; a scorable one is Correct at 10, Partially Correct strictly between 0 and 10, and Incorrect otherwise |
| AnswerCard.CardStatus | client/src/components/results/AnswerCard.jsx:124-166 | the error card appears exactly when the data or its populated question is missing; otherwise the badge of its type and points |
| AnswerCard.StoredScorable | client/src/components/results/AnswerCard.jsx:138-143 | among the types a question document can have, exactly Comprehension, Categorize and Cloze are scorable |
| AnswerCard.StatusOfScore | client/src/components/results/AnswerCard.jsx:144-165 | for a stored rounded score s in [0, 10]: Correct exactly when s ≥ 9.5, Incorrect exactly when s < 0.5 |
| AnswerCard.UserChoice | client/src/components/results/AnswerCard.jsx:11 | the choice shown is the answer's value under the mcq id when the answer and that value are truthy, and "No answer" in every other case; it is never empty |
| AnswerCard.McqBreakdown | client/src/components/results/AnswerCard.jsx:9-17 | an mcq is marked correct exactly when the choice shown strictly equals its key, and the key is shown exactly when it is not |
| AnswerCard.McqCardAgreesWithScoring | client/src/components/results/AnswerCard.jsx:11-12 | for a non-empty text choice the card marks an mcq correct exactly when the server credited it |
| AnswerCard.NoAnswerShownCorrect | client/src/components/results/AnswerCard.jsx:11-12 | an unanswered mcq whose key is the text "No answer" is shown correct though the server gave it nothing |
| AnswerCard.CategoryCorrectAnswer | client/src/components/results/AnswerCard.jsx:43-46 | a category's correct answer lists exactly the texts of the items filed under it |
| CategorizeRendering.ItemTexts | client/src/components/renderer/CategorizeRenderer.jsx:32 | the texts listed are exactly the item texts |
| CategorizeRendering.AddBucketsSpec | client/src/components/renderer/CategorizeRenderer.jsx:33 | spreading the categories' empty buckets gives every category an empty bucket. Other keys keep their values, the first key keeps its place, and no key appears twice. The key set is the old keys plus the categories |
| CategorizeRendering.AddBucketsKeys | client/src/components/renderer/CategorizeRenderer.jsx:33 | the keys after the spread are the old keys and the categories |
| CategorizeRendering.AddBucketsOthers | client/src/components/renderer/CategorizeRenderer.jsx:33 | keys that are not categories keep their values |
| CategorizeRendering.AddBucketsEmpty | client/src/components/renderer/CategorizeRenderer.jsx:33 | every category's bucket is empty |
| CategorizeRendering.AddBucketsHead | client/src/components/renderer/CategorizeRenderer.jsx:33 | the first key stays first |
| CategorizeRendering.AddBucketsDistinct | client/src/components/renderer/CategorizeRenderer.jsx:33 | no key appears twice |
| CategorizeRendering.InitialLists | client/src/components/renderer/CategorizeRenderer.jsx:31-34 | the board's first key is `unassigned` and its keys are `unassigned` and the categories, each key once. Every category starts empty; `unassigned` holds the item texts in item order unless a category is itself named `unassigned` |
| CategorizeRendering.InitialHoldsItems | client/src/components/renderer/CategorizeRenderer.jsx:31-34 | the initial board holds exactly the item texts, as a multiset |
| CategorizeRendering.SourceFrom | client/src/components/renderer/CategorizeRenderer.jsx:44 | the bucket found holds the text and no earlier one does; none only when no bucket does |
| CategorizeRendering.SourceBucket | client/src/components/renderer/CategorizeRenderer.jsx:44 | the source is the first key, in key order, whose bucket holds the dragged text; none exactly when no bucket holds it |
| CategorizeRendering.DragEnd | client/src/components/renderer/CategorizeRenderer.jsx:40-54 | nothing changes without a target, without a source, or onto the source. Otherwise the text leaves its source and is appended to the target, no other bucket changes, and keys stay the same and distinct. An unknown target throws |
| CategorizeRendering.SetAllTexts | client/src/components/renderer/CategorizeRenderer.jsx:49-50 | writing a bucket swaps its texts for the new ones among the board's texts |
| CategorizeRendering.RemoveText | client/src/components/renderer/CategorizeRenderer.jsx:49 | filtering a text held once out of its bucket removes that one copy from the board |
| CategorizeRendering.AppendText | client/src/components/renderer/CategorizeRenderer.jsx:50 | appending a text to a bucket adds one copy to the board |
| CategorizeRendering.MovedLists | client/src/components/renderer/CategorizeRenderer.jsx:47-51 | a move writes the filtered source bucket, then the target bucket with the text appended |
| CategorizeRendering.MoveTexts | client/src/components/renderer/CategorizeRenderer.jsx:49-50 | taking a text's one copy out of one bucket and appending it to another keeps the board's texts |
| CategorizeRendering.MovePreservesTexts | client/src/components/renderer/CategorizeRenderer.jsx:47-51 | with distinct texts, a move keeps the multiset of all texts on the board, so they stay distinct |
| CategorizeRendering.ScoringFindsSource | client/src/components/renderer/CategorizeRenderer.jsx:44 | the category the server finds for a text in the submitted board is the bucket the renderer shows it in |
| CategorizeRendering.CategorizeRenderer.Answer | client/src/components/renderer/CategorizeRenderer.jsx:36-38 | the answer reported is an object with the board's keys in the board's order |
| CategorizeRendering.CategorizeRenderer.constructor | client/src/components/renderer/CategorizeRenderer.jsx:31-34 | the board starts as the initial board, each key once |
| CategorizeRendering.CategorizeRenderer.HandleDragEnd | client/src/components/renderer/CategorizeRenderer.jsx:40-54 | the board becomes the moved board, or stays as it was when the drop is ignored or throws; keys stay distinct |
| ClozeRendering.BlankIds | client/src/components/renderer/ClozeRenderer.jsx:37-38 | there are as many blanks as markers, one fewer than passage parts; their ids `blank_0 … blank_{k-1}` are distinct and in passage order |
| ClozeRendering.Initial | client/src/components/renderer/ClozeRenderer.jsx:30-31 | every option starts in the tray and no blank is filled |
| ClozeRendering.Drop | client/src/components/renderer/ClozeRenderer.jsx:40-64 | without a `blank_` target nothing changes. Otherwise the target holds the word and no copy of it is in the tray. The word previously in the target returns to the tray, the blank the word came from is cleared, and the other blanks keep their words |
| ClozeRendering.FromTrayToEmpty | client/src/components/renderer/ClozeRenderer.jsx:51-62 | a word from the tray into an empty blank keeps every option in exactly one place |
| ClozeRendering.FromTrayToFilled | client/src/components/renderer/ClozeRenderer.jsx:51-62 | a word from the tray into a filled blank, whose word goes back, keeps every option in exactly one place |
| ClozeRendering.OntoItsOwnBlank | client/src/components/renderer/ClozeRenderer.jsx:51-62 | a word dropped onto the blank it fills keeps every option in exactly one place |
| ClozeRendering.BetweenBlanksEmpty | client/src/components/renderer/ClozeRenderer.jsx:51-62 | a word moved to another, empty blank keeps every option in exactly one place |
| ClozeRendering.BetweenBlanksFilled | client/src/components/renderer/ClozeRenderer.jsx:51-62 | a word moved to another, filled blank, whose word goes back, keeps every option in exactly one place |
| ClozeRendering.RefillValues | client/src/components/renderer/ClozeRenderer.jsx:56-59 | clearing a blank and writing its word back keeps the blanks' words |
| ClozeRendering.DropFromTray | client/src/components/renderer/ClozeRenderer.jsx:50-62 | dropping a word from the tray keeps tray plus blanks equal to the options, as a multiset |
| ClozeRendering.DropFromBlank | client/src/components/renderer/ClozeRenderer.jsx:47-62 | dropping a word from a blank keeps tray plus blanks equal to the options, as a multiset |
| ClozeRendering.DropKeepsConsistent | client/src/components/renderer/ClozeRenderer.jsx:40-64 | with distinct non-empty options, every drop keeps tray plus blanks equal to the options, so a word fills at most one blank |
| ClozeRendering.FilledNotEmpty | client/src/components/renderer/ClozeRenderer.jsx:53 | on a consistent board a filled blank holds a non-empty (truthy) word |
| ClozeRendering.ScoringReadsBlanks | client/src/components/renderer/ClozeRenderer.jsx:81 | the server credits blank i exactly when the renderer's `blank_i` holds option i |
| ClozeRendering.ClozeRenderer.Answer | client/src/components/renderer/ClozeRenderer.jsx:33-35 | the answer reported is an object with the filled blanks' ids |
| ClozeRendering.ClozeRenderer.constructor | client/src/components/renderer/ClozeRenderer.jsx:30-31 | the board starts with every option in the tray, consistent with the options |
| ClozeRendering.ClozeRenderer.HandleDragEnd | client/src/components/renderer/ClozeRenderer.jsx:40-64 | the board becomes the dropped board |
| ComprehensionRendering.FindMcq | client/src/components/renderer/ComprehensionRenderer.jsx:13 | the mcq found has the id and belongs to the question; none exactly when no mcq has it |
| ComprehensionRendering.OptionAt | client/src/components/renderer/ComprehensionRenderer.jsx:15 | the option text at an index, `undefined` exactly past the end |
| ComprehensionRendering.Report | client/src/components/renderer/ComprehensionRenderer.jsx:11-17 | the report has a key exactly for every selected mcq that belongs to the question, each once; unselected mcqs have none |
| ComprehensionRendering.ReportValue | client/src/components/renderer/ComprehensionRenderer.jsx:15 | the value reported for an mcq is the text of the option selected for it |
| ComprehensionRendering.Serialized | client/src/components/renderer/ComprehensionRenderer.jsx:19 | the answer sent keeps the reported texts and drops keys whose value is `undefined` |
| ComprehensionRendering.ScoringReadsSelection | client/src/components/renderer/ComprehensionRenderer.jsx:15 | the server credits an mcq exactly when the text selected for it is its key |
| ComprehensionRendering.SelectionOverwrites | client/src/components/renderer/ComprehensionRenderer.jsx:8 | after (re)selecting an option, that mcq reports the new option's text |
| ComprehensionRendering.SelectionKeepsOthers | client/src/components/renderer/ComprehensionRenderer.jsx:8 | selecting for one mcq leaves what every other mcq reports unchanged |
| ComprehensionRendering.SelectedTextOfSame | client/src/components/renderer/ComprehensionRenderer.jsx:12-16 | the text reported for an mcq depends only on the index selected for it |
| ComprehensionRendering.BuildAnswer | client/src/components/renderer/ComprehensionRenderer.jsx:11-17 | the `for…in` loop builds exactly the report |
| ComprehensionRendering.ComprehensionRenderer.constructor | client/src/components/renderer/ComprehensionRenderer.jsx:5 | no mcq starts selected |
| ComprehensionRendering.ComprehensionRenderer.HandleSelection | client/src/components/renderer/ComprehensionRenderer.jsx:7-20 | the selection records the index for that mcq, and the answer reported is the report of the new selection |
| ClozeBuilding.Insert | client/src/components/builder/ClozeBuilder.jsx:42 | `splice(k, 0, x)` puts x at index k, keeping the rest in order; past the end it appends; one copy of x is added |
| ClozeBuilding.MakeBlank | client/src/components/builder/ClozeBuilder.jsx:13-48 | nothing happens for a missing or collapsed selection, a blank selection, or a trimmed text already among the options. Otherwise the selection becomes one marker and the trimmed text is added as a new option |
| ClozeBuilding.MakeBlankKeepsNoDup | client/src/components/builder/ClozeBuilder.jsx:23-26 | the options stay free of duplicates |
| ClozeBuilding.InsertKeepsNoDup | client/src/components/builder/ClozeBuilder.jsx:40-44 | inserting a text not among distinct options keeps them distinct |
| ClozeBuilding.MadeShape | client/src/components/builder/ClozeBuilder.jsx:34-44 | the new passage is the text before the selection, one marker, and the text after it; the option goes in at the blank's index |
| ClozeBuilding.AlignedParts | client/src/components/builder/ClozeBuilder.jsx:34-44 | a marker between two texts, with the option inserted at the count of markers before it, keeps one marker per option and puts the option at the new blank's position |
| ClozeBuilding.MakeBlankAligned | client/src/components/builder/ClozeBuilder.jsx:34-44 | on an aligned passage and a selection that touches no marker: the new option sits at the index of the new blank (the markers before it), earlier options keep their place, later ones shift by one, and markers still number the options |
| ClozeBuilding.MakeBlankKeepsAligned | client/src/components/builder/ClozeBuilder.jsx:34-44 | one marker per option and no duplicate option survive a blank made from a selection that touches no marker |
| ClozeBuilding.MakeBlankStep | client/src/components/builder/ClozeBuilder.jsx:13-48 | whatever the outcome, an aligned editor stays aligned after a blank made from a selection that touches no marker |
| ClozeBuilding.SelectionOverBlankMisaligns | client/src/components/builder/ClozeBuilder.jsx:34-44 | a selection that swallows or cuts a marker leaves more options than blanks |
| ClozeBuilding.Save | client/src/components/builder/ClozeBuilder.jsx:57-86 | the save is refused exactly when the passage has no marker or there are no options |
| ClozeBuilding.SaveStored | client/src/components/builder/ClozeBuilder.jsx:85 | a saved Cloze is accepted as a Cloze question with this passage, these options as key and this image; on an aligned editor the passage splits into one more part than options |
| ClozeBuilding.ClozeBuilder.constructor | client/src/components/builder/ClozeBuilder.jsx:120-127 | the editor starts with the placeholder sentence and no options (line 6), and is aligned |
| ClozeBuilding.ClozeBuilder.EditPassage | client/src/components/builder/ClozeBuilder.jsx:122 | typing changes the passage only |
| ClozeBuilding.ClozeBuilder.HandleMakeBlank | client/src/components/builder/ClozeBuilder.jsx:13-48 | the state becomes `MakeBlank`'s passage and options when a blank is made, and is unchanged otherwise; alignment is kept for selections that touch no marker |
| ClozeBuilding.ClozeBuilder.HandleSave | client/src/components/builder/ClozeBuilder.jsx:57-86 | the body sent is `Save` of the current passage and options |
| ComprehensionBuilding.SetQuestionText | client/src/components/builder/ComprehensionBuilder.jsx:11-15 | only that mcq's question text changes |
| ComprehensionBuilding.SetOption | client/src/components/builder/ComprehensionBuilder.jsx:17-21 | only that option of that mcq changes |
| ComprehensionBuilding.AddedMcq | client/src/components/builder/ComprehensionBuilder.jsx:23 | exactly one mcq with empty text and three empty options is appended; the others are unchanged |
| ComprehensionBuilding.SaveMcqs | client/src/components/builder/ComprehensionBuilder.jsx:63 | each saved mcq keeps its text and options, and its `correctAnswer` is its first option, defined exactly when it has options |
| ComprehensionBuilding.Save | client/src/components/builder/ComprehensionBuilder.jsx:32-67 | the save is refused exactly when the passage or some question text is blank after trimming; option texts are not checked |
| ComprehensionBuilding.SavedKeyIsFirstOption | client/src/components/builder/ComprehensionBuilder.jsx:60-65 | every saved mcq's `correctAnswer` is its first option, so it is one of its options |
| ComprehensionBuilding.StoredMcqs | client/src/components/builder/ComprehensionBuilder.jsx:63 | the stored mcqs are the saved ones with their database ids |
| ComprehensionBuilding.FirstChoices | client/src/components/builder/ComprehensionBuilder.jsx:63 | the answer choosing every mcq's first option has one key per mcq, in mcq order |
| ComprehensionBuilding.FirstChoicesGet | client/src/components/builder/ComprehensionBuilder.jsx:63 | under each mcq id that answer holds the mcq's first option |
| ComprehensionBuilding.FirstChoicesEarnFullMarks | client/src/components/builder/ComprehensionBuilder.jsx:63 | choosing every first option earns full marks from the server scoring |
| ComprehensionBuilding.SaveStored | client/src/components/builder/ComprehensionBuilder.jsx:60-66 | a saved Comprehension is accepted as that type with its passage, texts, options and first-option keys; choosing every first option scores 10 |
| ComprehensionBuilding.ComprehensionBuilder.constructor | client/src/components/builder/ComprehensionBuilder.jsx:5-6 | the editor starts with an empty passage and one mcq with empty text and three empty options |
| ComprehensionBuilding.ComprehensionBuilder.EditPassage | client/src/components/builder/ComprehensionBuilder.jsx:103 | typing changes the passage only |
| ComprehensionBuilding.ComprehensionBuilder.HandleMcqChange | client/src/components/builder/ComprehensionBuilder.jsx:11-15 | the mcqs become `SetQuestionText`'s; every mcq keeps three options |
| ComprehensionBuilding.ComprehensionBuilder.HandleOptionChange | client/src/components/builder/ComprehensionBuilder.jsx:17-21 | the mcqs become `SetOption`'s; every mcq keeps three options |
| ComprehensionBuilding.ComprehensionBuilder.AddMcq | client/src/components/builder/ComprehensionBuilder.jsx:23 | the mcqs become `AddedMcq`'s |
| ComprehensionBuilding.ComprehensionBuilder.HandleSave | client/src/components/builder/ComprehensionBuilder.jsx:32-67 | the payload is `Save` of the current state |
| CategorizeBuilding.RenameCategory | client/src/components/builder/CategorizeBuilder.jsx:11-15 | only that category name changes |
| CategorizeBuilding.RenameStrandsItems | client/src/components/builder/CategorizeBuilder.jsx:11-15 | items keep the old category text, which is no longer a category |
| CategorizeBuilding.AddedCategory | client/src/components/builder/CategorizeBuilder.jsx:17 | "Category n+1" is appended for n categories; the others are unchanged |
| CategorizeBuilding.AddCategoryCanRepeat | client/src/components/builder/CategorizeBuilder.jsx:17 | after a rename the new name can repeat an existing one |
| CategorizeBuilding.SetItemText | client/src/components/builder/CategorizeBuilder.jsx:19-23 | only that item's text changes |
| CategorizeBuilding.SetItemCategory | client/src/components/builder/CategorizeBuilder.jsx:19-23 | only that item's category changes |
| CategorizeBuilding.AddedItem | client/src/components/builder/CategorizeBuilder.jsx:25 | an item with empty text is appended, filed under the first category or under '' when there is none |
| CategorizeBuilding.EditsKeepFiling | client/src/components/builder/CategorizeBuilder.jsx:17-25 | adding categories or items, editing item texts and choosing a listed category keep every item filed under a category |
| CategorizeBuilding.Save | client/src/components/builder/CategorizeBuilder.jsx:34-63 | the save is refused exactly when a category name or item text is blank after trimming; otherwise categories and items are sent unchanged |
| CategorizeBuilding.StoredItems | client/src/components/builder/CategorizeBuilder.jsx:62 | the stored items are the saved ones with their database ids |
| CategorizeBuilding.SaveStored | client/src/components/builder/CategorizeBuilder.jsx:62 | a saved Categorize is accepted as that type with its categories and items; on a filed editor every stored item's category is a stored category |
| CategorizeBuilding.CategorizeBuilder.constructor | client/src/components/builder/CategorizeBuilder.jsx:5-6 | the editor starts with "Category 1", "Category 2" and one empty item in "Category 1" |
| CategorizeBuilding.CategorizeBuilder.HandleCategoryChange | client/src/components/builder/CategorizeBuilder.jsx:11-15 | the categories become `RenameCategory`'s |
| CategorizeBuilding.CategorizeBuilder.AddCategory | client/src/components/builder/CategorizeBuilder.jsx:17 | the categories become `AddedCategory`'s; filing is kept |
| CategorizeBuilding.CategorizeBuilder.HandleItemText | client/src/components/builder/CategorizeBuilder.jsx:19-23 | the items become `SetItemText`'s; filing is kept |
| CategorizeBuilding.CategorizeBuilder.HandleItemCategory | client/src/components/builder/CategorizeBuilder.jsx:124-131 | choosing a category in the select sets that item's category; filing is kept |
| CategorizeBuilding.CategorizeBuilder.AddItem | client/src/components/builder/CategorizeBuilder.jsx:25 | the items become `AddedItem`'s: an empty item in the first category |
| CategorizeBuilding.CategorizeBuilder.HandleSave | client/src/components/builder/CategorizeBuilder.jsx:34-63 | the payload is `Save` of the current state |
| CheckboxBuilding.Load | client/src/components/builder/CheckboxBuilder.jsx:9-17 | a new question gets the defaults; for a question being edited, a non-empty text is kept (else the default text), given options and correct answers are kept, and absent ones default to the two default options and [] |
| CheckboxBuilding.Toggle | client/src/components/builder/CheckboxBuilder.jsx:25-31 | the toggled text becomes correct exactly when it was not; every other text keeps its status |
| CheckboxBuilding.ToggleTwice | client/src/components/builder/CheckboxBuilder.jsx:25-31 | toggling twice restores which texts are correct, and the list itself when the text was not correct |
| CheckboxBuilding.EditOption | client/src/components/builder/CheckboxBuilder.jsx:19-23 | only that option changes; the correct answers are untouched |
| CheckboxBuilding.AddedOption | client/src/components/builder/CheckboxBuilder.jsx:33 | "New Option" is appended |
| CheckboxBuilding.RemoveOption | client/src/components/builder/CheckboxBuilder.jsx:35-40 | refused exactly when at most one option remains; otherwise exactly that index goes, and every copy of its text leaves the correct answers |
| CheckboxBuilding.EditsKeepKeys | client/src/components/builder/CheckboxBuilder.jsx:25-40 | toggling an option, adding one and removing one keep every correct answer an option |
| CheckboxBuilding.EditLeavesStaleKey | client/src/components/builder/CheckboxBuilder.jsx:19-23 | renaming a correct option leaves its old text among the correct answers, though no option has it |
| CheckboxBuilding.CheckboxBuilder.constructor | client/src/components/builder/CheckboxBuilder.jsx:5-17 | the editor starts in the loaded state |
| CheckboxBuilding.CheckboxBuilder.HandleCorrectChange | client/src/components/builder/CheckboxBuilder.jsx:25-31 | the correct answers become the toggled list |
| CheckboxBuilding.CheckboxBuilder.HandleOptionChange | client/src/components/builder/CheckboxBuilder.jsx:19-23 | the state becomes `EditOption`'s |
| CheckboxBuilding.CheckboxBuilder.AddOption | client/src/components/builder/CheckboxBuilder.jsx:33 | the state becomes `AddedOption`'s |
| CheckboxBuilding.CheckboxBuilder.HandleRemoveOption | client/src/components/builder/CheckboxBuilder.jsx:35-40 | the state becomes `RemoveOption`'s, or is unchanged when refused |
| CheckboxBuilding.CheckboxBuilder.HandleSave | client/src/components/builder/CheckboxBuilder.jsx:42-50 | the payload carries the current text, options and correct answers |
| MultipleChoiceBuilding.IndexOf | client/src/components/builder/MultipleChoiceBuilder.jsx:13 | `indexOf` gives the first position of the answer, and -1 exactly when it is absent or `undefined` |
| MultipleChoiceBuilding.OptionAt | client/src/components/builder/MultipleChoiceBuilder.jsx:42 | `options[i]` is defined exactly for an index inside the list |
| MultipleChoiceBuilding.Load | client/src/components/builder/MultipleChoiceBuilder.jsx:9-17 | a question with options loads them, with the index `indexOf(correctAnswer)`; -1 survives the `|| 0`. Without options: the defaults and index 0 |
| MultipleChoiceBuilding.Save | client/src/components/builder/MultipleChoiceBuilder.jsx:36-44 | the saved answer is the option at the index, defined exactly when the index is inside the list, and then one of the options |
| MultipleChoiceBuilding.LoadSaveRoundTrip | client/src/components/builder/MultipleChoiceBuilder.jsx:9-44 | loading and saving unedited gives back a correct answer that is an option; any other answer loads as -1 and saves as `undefined` |
| MultipleChoiceBuilding.SetCorrect | client/src/components/builder/MultipleChoiceBuilder.jsx:66-67 | after choosing option i the saved answer is its text |
| MultipleChoiceBuilding.EditOption | client/src/components/builder/MultipleChoiceBuilder.jsx:19-23 | only that option changes; editing the correct one changes the saved answer to the new text, any other leaves it |
| MultipleChoiceBuilding.AddedOption | client/src/components/builder/MultipleChoiceBuilder.jsx:25 | "New Option" is appended and a valid saved answer is unchanged |
| MultipleChoiceBuilding.RemoveOption | client/src/components/builder/MultipleChoiceBuilder.jsx:27-34 | refused exactly when at most two options remain; otherwise exactly that index goes, the index resets to 0 when the correct option was removed, and is kept otherwise |
| MultipleChoiceBuilding.RemoveMovesKey | client/src/components/builder/MultipleChoiceBuilder.jsx:27-34 | after a removal the saved answer is the first remaining option, the same text, the next text, or `undefined` when the last option was correct, by case |
| MultipleChoiceBuilding.RemoveBeforeChangesKey | client/src/components/builder/MultipleChoiceBuilder.jsx:29-33 | with distinct options, removing one before the correct option changes which text is saved as correct |
| MultipleChoiceBuilding.MultipleChoiceBuilder.constructor | client/src/components/builder/MultipleChoiceBuilder.jsx:5-17 | the editor starts in the loaded state |
| MultipleChoiceBuilding.MultipleChoiceBuilder.SetCorrectAnswerIndex | client/src/components/builder/MultipleChoiceBuilder.jsx:66-67 | the state becomes `SetCorrect`'s |
| MultipleChoiceBuilding.MultipleChoiceBuilder.HandleOptionChange | client/src/components/builder/MultipleChoiceBuilder.jsx:19-23 | the state becomes `EditOption`'s |
| MultipleChoiceBuilding.MultipleChoiceBuilder.AddOption | client/src/components/builder/MultipleChoiceBuilder.jsx:25 | the state becomes `AddedOption`'s |
| MultipleChoiceBuilding.MultipleChoiceBuilder.HandleRemoveOption | client/src/components/builder/MultipleChoiceBuilder.jsx:27-34 | the state becomes `RemoveOption`'s, or is unchanged when refused |
| MultipleChoiceBuilding.MultipleChoiceBuilder.HandleSave | client/src/components/builder/MultipleChoiceBuilder.jsx:36-44 | the payload is `Save` of the current state |
| DropdownBuilding.Load | client/src/components/builder/DropdownBuilder.jsx:9-17 | a non-empty answer of the question is kept. Missing, the answer becomes the first option (`undefined` for an empty list); when the question has no options at all, this throws. Given options replace the defaults |
| DropdownBuilding.FreshKeyIsOption | client/src/components/builder/DropdownBuilder.jsx:5-7 | a new question starts with its first option as the answer |
| DropdownBuilding.SelectCorrect | client/src/components/builder/DropdownBuilder.jsx:80-86 | choosing in the select makes that option the answer |
| DropdownBuilding.EditOption | client/src/components/builder/DropdownBuilder.jsx:19-23 | only that option changes; the answer is not updated |
| DropdownBuilding.EditLeavesStaleKey | client/src/components/builder/DropdownBuilder.jsx:19-23 | renaming the correct option leaves an answer that no option has |
| DropdownBuilding.AddedOption | client/src/components/builder/DropdownBuilder.jsx:25 | "New Option" is appended; the answer stays an option |
| DropdownBuilding.RemoveOption | client/src/components/builder/DropdownBuilder.jsx:27-34 | refused exactly when at most two options remain. Otherwise exactly that index goes; removing the answer resets it to the first option of the list before the removal, and any other removal keeps it |
| DropdownBuilding.RemoveKeepsKey | client/src/components/builder/DropdownBuilder.jsx:27-34 | a removal keeps the answer an option, unless the answer was the first option and that one is removed |
| DropdownBuilding.RemoveFirstStrandsKey | client/src/components/builder/DropdownBuilder.jsx:31-33 | removing the first option while it is the answer keeps the removed text as the answer |
| DropdownBuilding.DropdownBuilder.constructor | client/src/components/builder/DropdownBuilder.jsx:5-7 | the editor of a new question starts in the loaded default state |
| DropdownBuilding.DropdownBuilder.LoadInitial | client/src/components/builder/DropdownBuilder.jsx:9-17 | loading a question sets the loaded state, or reports the crash and leaves the state |
| DropdownBuilding.DropdownBuilder.SetCorrectAnswer | client/src/components/builder/DropdownBuilder.jsx:80-86 | the state becomes `SelectCorrect`'s |
| DropdownBuilding.DropdownBuilder.HandleOptionChange | client/src/components/builder/DropdownBuilder.jsx:19-23 | the state becomes `EditOption`'s |
| DropdownBuilding.DropdownBuilder.AddOption | client/src/components/builder/DropdownBuilder.jsx:25 | the state becomes `AddedOption`'s |
| DropdownBuilding.DropdownBuilder.HandleRemoveOption | client/src/components/builder/DropdownBuilder.jsx:27-34 | the state becomes `RemoveOption`'s, or is unchanged when refused |
| DropdownBuilding.DropdownBuilder.HandleSave | client/src/components/builder/DropdownBuilder.jsx:36-44 | the payload carries the current text, options and answer |
| PictureChoiceBuilding.Marked | client/src/components/builder/PictureChoiceBuilder.jsx:74-77 | each loaded option keeps its image and is marked exactly when it equals the correct answer |
| PictureChoiceBuilding.Load | client/src/components/builder/PictureChoiceBuilder.jsx:68-82 | a new question gets the defaults. A question with images loads them, marked against its answer; one without images keeps the default options. The text is never empty |
| PictureChoiceBuilding.FreshMarksFirst | client/src/components/builder/PictureChoiceBuilder.jsx:62-66 | a new question starts with exactly its first option marked |
| PictureChoiceBuilding.LoadMarksDuplicates | client/src/components/builder/PictureChoiceBuilder.jsx:74-77 | loading marks every copy of the correct image, so duplicates give more than one marked option |
| PictureChoiceBuilding.SetCorrect | client/src/components/builder/PictureChoiceBuilder.jsx:90-97 | exactly option i becomes marked; images are unchanged |
| PictureChoiceBuilding.SetImage | client/src/components/builder/PictureChoiceBuilder.jsx:84-88 | only that option's image changes |
| PictureChoiceBuilding.AddedOption | client/src/components/builder/PictureChoiceBuilder.jsx:99 | an unmarked option without image is appended, keeping "at most one marked" and "exactly i marked" |
| PictureChoiceBuilding.RemoveOption | client/src/components/builder/PictureChoiceBuilder.jsx:101-104 | refused exactly when at most two options remain; otherwise exactly that index goes |
| PictureChoiceBuilding.EditsKeepAtMostOne | client/src/components/builder/PictureChoiceBuilder.jsx:84-104 | uploading and removing keep at most one option marked |
| PictureChoiceBuilding.RemoveMarkedLeavesNone | client/src/components/builder/PictureChoiceBuilder.jsx:101-104 | removing the marked option leaves none marked |
| PictureChoiceBuilding.Images | client/src/components/builder/PictureChoiceBuilder.jsx:107 | the images in option order |
| PictureChoiceBuilding.FirstCorrect | client/src/components/builder/PictureChoiceBuilder.jsx:112 | the first marked option; none exactly when no option is marked |
| PictureChoiceBuilding.Save | client/src/components/builder/PictureChoiceBuilder.jsx:106-119 | refused exactly when some option lacks an image. Otherwise the images are sent in order, and the answer is the image of the first marked option, whatever the number marked; it is `null` exactly when none is marked and is one of the images |
| PictureChoiceBuilding.SaveSendsMarkedImage | client/src/components/builder/PictureChoiceBuilder.jsx:112-118 | with exactly one option marked the saved answer is its image |
| PictureChoiceBuilding.SaveLoadRoundTrip | client/src/components/builder/PictureChoiceBuilder.jsx:68-119 | saving and loading again restores the editor when exactly one option is marked and the images are distinct |
| PictureChoiceBuilding.PictureChoiceBuilder.constructor | client/src/components/builder/PictureChoiceBuilder.jsx:62-82 | the editor starts in the loaded state |
| PictureChoiceBuilding.PictureChoiceBuilder.HandleSetCorrect | client/src/components/builder/PictureChoiceBuilder.jsx:36-42 | the options become `SetCorrect`'s |
| PictureChoiceBuilding.PictureChoiceBuilder.HandleImageUpload | client/src/components/builder/PictureChoiceBuilder.jsx:84-88 | the options become `SetImage`'s; at most one stays marked |
| PictureChoiceBuilding.PictureChoiceBuilder.AddOption | client/src/components/builder/PictureChoiceBuilder.jsx:99 | the options become `AddedOption`'s |
| PictureChoiceBuilding.PictureChoiceBuilder.HandleRemoveOption | client/src/components/builder/PictureChoiceBuilder.jsx:101-104 | the options become `RemoveOption`'s, or are unchanged when refused; at most one stays marked |
| PictureChoiceBuilding.PictureChoiceBuilder.HandleSave | client/src/components/builder/PictureChoiceBuilder.jsx:106-119 | the payload is `Save` of the current state |
| JsString.Trim | client/src/components/builder/ClozeBuilder.jsx:20 | `trim()` gives a text with no space at either end, empty exactly when the text is blank |
| JsString.NatToString | client/src/components/builder/CategorizeBuilder.jsx:17 | a number's decimal text is non-empty, digits only, one digit exactly below 10 |
| JsString.NatToStringInjective | server/controllers/responseController.js:110 | distinct numbers have distinct decimal texts |
| JsString.ParseNatToString | client/src/components/renderer/ClozeRenderer.jsx:81 | every number's text reads back as that number |
| JsString.CountAroundMarker | client/src/components/builder/ClozeBuilder.jsx:36-38 | replacing a selection by one marker adds exactly one blank, keeping those before and after |
| JsString.IncludesMarker | client/src/components/builder/ClozeBuilder.jsx:59 | `includes('[BLANK]')` holds exactly when a blank is counted |
| JsString.SplitAtMarkersSpec | client/src/components/renderer/ClozeRenderer.jsx:37 | the passage splits into one more part than it has blanks, and the parts joined by the marker give the passage back |
| JsObject.Set | client/src/components/renderer/CategorizeRenderer.jsx:49-50 | writing a key keeps an existing key's place or appends a new one; other keys keep their values |
| JsObject.Delete | client/src/components/renderer/ClozeRenderer.jsx:57 | deleting a key removes exactly that key |
| JsObject.KeyOf | client/src/components/renderer/ClozeRenderer.jsx:47-48 | the key found holds the value, and none is found exactly when no key does |
| JsObject.SetValuesExisting | client/src/components/renderer/ClozeRenderer.jsx:59 | overwriting a key replaces its one value among the values |
| JsObject.DeleteValues | client/src/components/renderer/ClozeRenderer.jsx:57 | deleting a key of a well-formed object removes its one value |
| Common.Without | client/src/components/builder/CheckboxBuilder.jsx:28 | `filter(y => y !== x)` keeps exactly the other elements |
| Common.RemoveAt | client/src/components/builder/CheckboxBuilder.jsx:37 | filtering out an index drops exactly that element, keeping the order |
| Common.Round | server/controllers/responseController.js:121 | `Math.round` gives the integer within half of its argument, halves rounded up |
| Common.RoundMonotone | server/controllers/responseController.js:130 | rounding never reverses an order |

## Behaviour of the code worth knowing

The model follows the code throughout; these consequences of it are proved:

- `totalMarks` is 10 for every question of the form, including Heading, Paragraph and Banner
  (`ResponseController.Submit`).
- The stored per-answer points and the stored score are rounded separately. The gap between the
  points total and the score is under (n+1)/2 over n answers
  (`ResponseProperties.ScoreVersusPoints`), and it can exceed 1: five answers worth 10/3 each store
  15 points and a score of 17 (`ResponseProperties.PointsAndScoreDifferByTwo`).
- The handler does not merge answers that cite the same question. Each one is scored and stored,
  so a repeated answer can take the score above `totalMarks`
  (`ResponseProperties.RepeatedAnswerExceedsMarks`). Without repeats, 0 ≤ score ≤ totalMarks
  (`ResponseProperties.ScoreWithinMarks`).
- A result card reads Correct from a score of 9.5 on, because the stored points are rounded
  (`AnswerCard.StatusOfScore`).
- An unanswered mcq whose key is literally "No answer" is shown correct but earns nothing
  (`AnswerCard.NoAnswerShownCorrect`).
- A `null` answer to a question the form has is a 500. It throws in the scoring loop, or fails the
  `answer` validation for a non-scorable question (`ResponseProperties.ServerErrorExactly`).
- The handler checks only that `userId` and `userEmail` are truthy. The response model casts them
  to `String`: a number or `true` is stored as its text (`ResponseProperties.NumberUserIdStored`),
  and an array or a plain object is refused when the response is saved, after scoring, which makes
  a 500 (`ResponseProperties.PlainObjectUserIdFails`).
- `answers` that is absent, `null`, a number, a boolean or a plain object is a 500: it cannot be
  iterated. A text is iterated character by character: nothing is cited, and the response is
  saved with no answers and score 0 (`ResponseProperties.TextAnswersStoreNothing`).
- A `null` element of `answers` is a 500 when the form has a question, because `find` reads
  `questionId` from it. On a form without questions `find` never calls its callback, so every
  element is skipped and the response is saved with score 0 out of 0
  (`ResponseProperties.EmptyFormStoresNothing`).
- Loading a Dropdown question that has neither a non-empty answer nor an `options` field throws
  (`DropdownBuilding.Load`).
- Loading a Multiple Choice question whose answer is not among its options keeps the index -1, and
  saving then sends `undefined` (`MultipleChoiceBuilding.LoadSaveRoundTrip`).
- Loading a Picture Choice question with a duplicated correct image marks both copies
  (`PictureChoiceBuilding.LoadMarksDuplicates`).
- Removing the first Dropdown option while it is the answer keeps the removed text as the answer
  (`DropdownBuilding.RemoveFirstStrandsKey`).

## Left out

- ResponseModel.CastString: a number is stored as `NumberText(n)`, standing for the text `String(n)`.
  Its digits are not spelled out, because JavaScript formats numbers as floating point, which the
  model does not have.

- The database and HTTP plumbing of `createResponse` is not modelled: `findById`, `populate`,
  `save`, pushing the response id onto `form.responses`, and the JSON replies. The populated form
  is an input; saving is the response model's validation.
- The read handlers of the response controller are not modelled; they are database queries only.
- The form, statistics, AI and image-upload controllers are not modelled. They are database queries,
  a language-model call and a foreign upload service.
- Builder image uploads are not modelled. The uploaded URL is a parameter (`''` when there is none).
- Floating point is not modelled: scores are exact reals, so the rounding error of 10/3 added three
  times is absent.
- React state batching is not modelled. Updates run in program order, including the tray update
  nested inside the blanks updater of the Cloze renderer.
- Drag-and-drop events are reduced to the dragged id and the target id.
- The DOM selection of the Cloze editor is reduced to offsets into the passage text.
- Key ordering of JavaScript objects ignores the rule that integer-like keys come first:
  insertion order is used throughout.
- Inherited object properties are not modelled. Property lookup on arrays and strings is limited to
  elements and `length`.
- The `...initialData` spread in the choice builders' save payloads is not modelled: only the
  fields the builders set are sent.
- The choice builders are not wired into the form editor, and the question model's type enum rejects
  their types. The model treats their payloads as values and does not store them as questions.
- Aliasing from in-place mutation of copied arrays' elements is not modelled: the Comprehension
  `handleMcqChange`/`handleOptionChange` and the Categorize `handleItemChange` write into objects
  shared with the previous state, and the model treats every edit as a fresh value.
- Display strings, CSS classes, themes, and the breakdowns of the simple choice types and of the
  Cloze/Categorize "your answer" lines are not modelled: these are presentation only.
- ClozeBuilding.ClozeBuilder.HandleMakeBlank: keeps alignment only for selections that touch no
  marker. A selection over a blank misaligns options and blanks
  (`ClozeBuilding.SelectionOverBlankMisaligns`), and the code does not guard against it.
- AnswerCard.CategoryCorrectAnswer: states which texts are listed, not their item order.
- CategorizeRendering.ItemTexts: keeps only the items that have a text. The source's
  `question.items.map(item => item.text)` also keeps an `undefined` entry for an item without a
  text, which the question model allows; a board of texts cannot hold it.
- CategorizeRendering.InitialLists: its `unassigned` bucket is `ItemTexts`, so for a question with
  an item that has no text, the model's initial board lacks the `undefined` entry the source's
  board has.
- The Cloze correct-answer line of the result card is `question.options` unchanged and has no
  member of its own.
- ClozeRendering.DropKeepsConsistent: is stated for distinct, non-empty options, as the Cloze
  editor produces them.
- CategorizeRendering.MovePreservesTexts: is stated for distinct item texts. Duplicates are dragged
  by the same id, and filtering drops every copy.
