/** The author's Comprehension editor
    (`client/src/components/builder/ComprehensionBuilder.jsx`): a passage
    and a list of mcqs, each with a question text and three option inputs.
    On save the first option of every mcq becomes its correct answer. */
module ComprehensionBuilding {
  import opened Common
  import opened JsString
  import opened QuestionModel
  import JsObject
  import JsValues
  import Scoring

  /** An mcq as edited. */
  datatype McqDraft = McqDraft(questionText: string, options: seq<string>)

  /** The mcq the editor starts with and `addMcq` appends. */
  const BlankMcq := McqDraft("", ["", "", ""])

  /** No operation of the editor adds or removes option inputs. */
  predicate ThreeOptions(mcqs: seq<McqDraft>) {
    forall i :: 0 <= i < |mcqs| ==> |mcqs[i].options| == 3
  }

  /** `handleMcqChange(index, 'questionText', value)`: only that mcq's
      question text changes. */
  function SetQuestionText(mcqs: seq<McqDraft>, index: nat, value: string): (r: seq<McqDraft>)
    requires index < |mcqs|
    ensures |r| == |mcqs| && r[index].questionText == value && r[index].options == mcqs[index].options
    ensures forall i :: 0 <= i < |mcqs| && i != index ==> r[i] == mcqs[i]
    ensures ThreeOptions(mcqs) ==> ThreeOptions(r)
  {
    mcqs[index := mcqs[index].(questionText := value)]
  }

  /** `handleOptionChange(mcqIndex, optionIndex, value)`: only that option of
      that mcq changes. */
  function SetOption(mcqs: seq<McqDraft>, mcqIndex: nat, optionIndex: nat, value: string): (r: seq<McqDraft>)
    requires mcqIndex < |mcqs| && optionIndex < |mcqs[mcqIndex].options|
    ensures |r| == |mcqs| && r[mcqIndex].questionText == mcqs[mcqIndex].questionText
    ensures |r[mcqIndex].options| == |mcqs[mcqIndex].options| && r[mcqIndex].options[optionIndex] == value
    ensures forall j :: 0 <= j < |mcqs[mcqIndex].options| && j != optionIndex ==> r[mcqIndex].options[j] == mcqs[mcqIndex].options[j]
    ensures forall i :: 0 <= i < |mcqs| && i != mcqIndex ==> r[i] == mcqs[i]
    ensures ThreeOptions(mcqs) ==> ThreeOptions(r)
  {
    var m := mcqs[mcqIndex];
    mcqs[mcqIndex := m.(options := m.options[optionIndex := value])]
  }

  /** `addMcq`: one blank mcq more at the end, the others unchanged. */
  function AddedMcq(mcqs: seq<McqDraft>): (r: seq<McqDraft>)
    ensures |r| == |mcqs| + 1 && r[..|mcqs|] == mcqs && r[|mcqs|] == BlankMcq
    ensures ThreeOptions(mcqs) ==> ThreeOptions(r)
  {
    mcqs + [BlankMcq]
  }

  /** An mcq as sent: `correctAnswer` is `undefined` (`None`) only for an mcq
      without options. */
  datatype SavedMcq = SavedMcq(questionText: string, options: seq<string>, correctAnswer: Option<string>)

  /** The body `handleSave` hands to `onSave`. */
  datatype Payload = Payload(passage: string, mcqs: seq<SavedMcq>, image: string)

  /** `mcqs.map(q => ({ ...q, correctAnswer: q.options[0] }))`. */
  function SaveMcqs(mcqs: seq<McqDraft>): (r: seq<SavedMcq>)
    ensures |r| == |mcqs|
    ensures forall i :: 0 <= i < |mcqs| ==> r[i].questionText == mcqs[i].questionText && r[i].options == mcqs[i].options
    ensures forall i :: 0 <= i < |mcqs| ==> (r[i].correctAnswer.Some? <==> |mcqs[i].options| > 0)
    ensures forall i :: 0 <= i < |mcqs| && r[i].correctAnswer.Some? ==> r[i].correctAnswer.value == mcqs[i].options[0]
  {
    if mcqs == [] then []
    else
      var m := mcqs[0];
      [SavedMcq(m.questionText, m.options, if |m.options| > 0 then Some(m.options[0]) else None)] + SaveMcqs(mcqs[1..])
  }

  /** `handleSave`: refused (an alert) when the passage or some question
      text is blank after trimming; option texts are not checked. */
  function Save(passage: string, mcqs: seq<McqDraft>, imageUrl: string): (r: Option<Payload>)
    ensures r.Some? <==> !IsBlank(passage) && forall i :: 0 <= i < |mcqs| ==> !IsBlank(mcqs[i].questionText)
    ensures r.Some? ==> r.value.passage == passage && r.value.image == imageUrl && |r.value.mcqs| == |mcqs|
  {
    if IsBlank(passage) || exists i :: 0 <= i < |mcqs| && IsBlank(mcqs[i].questionText) then None
    else Some(Payload(passage, SaveMcqs(mcqs), imageUrl))
  }

  /** On an editor that kept its three option inputs, every saved mcq's
      correct answer is its first option, hence one of its options. */
  lemma SavedKeyIsFirstOption(passage: string, mcqs: seq<McqDraft>, imageUrl: string, i: nat)
    requires ThreeOptions(mcqs) && Save(passage, mcqs, imageUrl).Some?
    requires i < |mcqs|
    ensures var m := Save(passage, mcqs, imageUrl).value.mcqs[i];
      m.correctAnswer == Some(mcqs[i].options[0]) && m.correctAnswer.value in m.options
  {
  }

  /** The saved mcqs with the ids the database gives them. */
  function StoredMcqs(ids: seq<string>, mcqs: seq<SavedMcq>): (r: seq<Mcq>)
    requires |ids| == |mcqs|
    ensures |r| == |mcqs|
    ensures forall i :: 0 <= i < |mcqs| ==>
      r[i] == Mcq(ids[i], Some(mcqs[i].questionText), mcqs[i].options, mcqs[i].correctAnswer)
  {
    if mcqs == [] then []
    else
      var m := mcqs[0];
      [Mcq(ids[0], Some(m.questionText), m.options, m.correctAnswer)] + StoredMcqs(ids[1..], mcqs[1..])
  }

  /** The body of the request that adds the question. */
  function Stored(ids: seq<string>, p: Payload): QuestionInput
    requires |ids| == |p.mcqs|
  {
    QuestionInput(Some("Comprehension"), None, Some(p.image), None, None, None, None, Some(p.passage), Some(StoredMcqs(ids, p.mcqs)))
  }

  /** The answer that picks the first option of every mcq. */
  function FirstChoices(mcqs: seq<Mcq>): (r: JsObject.Obj<JsValues.Json>)
    ensures JsObject.Keys(r) == seq(|mcqs|, i requires 0 <= i < |mcqs| => mcqs[i].id)
  {
    if mcqs == [] then []
    else
      var rest := FirstChoices(mcqs[1..]);
      [(mcqs[0].id, JsValues.JStr(if |mcqs[0].options| > 0 then mcqs[0].options[0] else ""))] + rest
  }

  /** Distinct mcq ids. */
  predicate DistinctIds(mcqs: seq<Mcq>) {
    forall a, b :: 0 <= a < b < |mcqs| ==> mcqs[a].id != mcqs[b].id
  }

  lemma {:induction false} FirstChoicesGet(mcqs: seq<Mcq>, i: nat)
    requires DistinctIds(mcqs) && i < |mcqs| && |mcqs[i].options| > 0
    ensures JsObject.Get(FirstChoices(mcqs), mcqs[i].id) == Some(JsValues.JStr(mcqs[i].options[0]))
  {
    if i > 0 {
      assert DistinctIds(mcqs[1..]) by {
        forall a, b | 0 <= a < b < |mcqs[1..]| ensures mcqs[1..][a].id != mcqs[1..][b].id {
          assert mcqs[1..][a] == mcqs[a + 1] && mcqs[1..][b] == mcqs[b + 1];
        }
      }
      assert mcqs[1..][i - 1] == mcqs[i];
      FirstChoicesGet(mcqs[1..], i - 1);
      assert mcqs[0].id != mcqs[i].id;
    }
  }

  /** Mcqs whose correct answer is their first option are all earned by the
      answer that picks every first option: the answer key the editor writes
      can be met in full. */
  lemma FirstChoicesEarnFullMarks(mcqs: seq<Mcq>)
    requires DistinctIds(mcqs) && |mcqs| > 0
    requires forall i :: 0 <= i < |mcqs| ==> |mcqs[i].options| > 0 && mcqs[i].correctAnswer == Some(mcqs[i].options[0])
    ensures Scoring.ComprehensionScore(JsValues.JObj(FirstChoices(mcqs)), mcqs) == Scoring.MarksPerQuestion
  {
    var answer := JsValues.JObj(FirstChoices(mcqs));
    forall i | 0 <= i < |mcqs| ensures Scoring.McqEarns(answer, mcqs[i]) {
      FirstChoicesGet(mcqs, i);
    }
    Scoring.ComprehensionExtremes(answer, mcqs);
  }

  /** A saved Comprehension is accepted by the question model with the
      passage and question texts as edited and each mcq keyed to its first
      option; with distinct mcq ids, picking every first option scores full
      marks. */
  lemma SaveStored(ids: seq<string>, passage: string, mcqs: seq<McqDraft>, imageUrl: string)
    requires ThreeOptions(mcqs) && Save(passage, mcqs, imageUrl).Some? && |ids| == |mcqs|
    ensures var q := CreateQuestion("", Stored(ids, Save(passage, mcqs, imageUrl).value));
      && q.Some? && q.value.kind == Comprehension && q.value.comprehensionPassage == Some(passage)
      && |q.value.mcqs| == |mcqs|
      && (forall i :: 0 <= i < |mcqs| ==>
            (q.value.mcqs[i].questionText == Some(mcqs[i].questionText)
             && q.value.mcqs[i].options == mcqs[i].options && q.value.mcqs[i].correctAnswer == Some(mcqs[i].options[0])))
      && (NoDup(ids) && |mcqs| > 0 ==> Scoring.ComprehensionScore(JsValues.JObj(FirstChoices(q.value.mcqs)), q.value.mcqs) == Scoring.MarksPerQuestion)
  {
    ParseTypeName(Comprehension, Comprehension);
    var p := Save(passage, mcqs, imageUrl).value;
    var stored := StoredMcqs(ids, p.mcqs);
    var q := CreateQuestion("", Stored(ids, p));
    assert q.value.mcqs == stored;
    if NoDup(ids) && |mcqs| > 0 {
      assert DistinctIds(stored);
      FirstChoicesEarnFullMarks(stored);
    }
  }

  /** The editor. */
  class ComprehensionBuilder {
    var passage: string
    var mcqs: seq<McqDraft>

    predicate Valid()
      reads this
    {
      ThreeOptions(mcqs)
    }

    constructor()
      ensures passage == "" && mcqs == [BlankMcq] && Valid()
    {
      passage := "";
      mcqs := [BlankMcq];
    }

    method EditPassage(text: string)
      modifies this
      ensures passage == text && mcqs == old(mcqs)
    {
      passage := text;
    }

    method HandleMcqChange(index: nat, value: string)
      requires index < |mcqs|
      modifies this
      ensures mcqs == SetQuestionText(old(mcqs), index, value) && passage == old(passage)
      ensures old(Valid()) ==> Valid()
    {
      mcqs := SetQuestionText(mcqs, index, value);
    }

    method HandleOptionChange(mcqIndex: nat, optionIndex: nat, value: string)
      requires mcqIndex < |mcqs| && optionIndex < |mcqs[mcqIndex].options|
      modifies this
      ensures mcqs == SetOption(old(mcqs), mcqIndex, optionIndex, value) && passage == old(passage)
      ensures old(Valid()) ==> Valid()
    {
      mcqs := SetOption(mcqs, mcqIndex, optionIndex, value);
    }

    method AddMcq()
      modifies this
      ensures mcqs == AddedMcq(old(mcqs)) && passage == old(passage)
      ensures old(Valid()) ==> Valid()
    {
      mcqs := mcqs + [BlankMcq];
    }

    method HandleSave(imageUrl: string) returns (payload: Option<Payload>)
      ensures payload == Save(passage, mcqs, imageUrl)
    {
      payload := Save(passage, mcqs, imageUrl);
    }
  }
}
