/** The respondent's Comprehension view
    (`client/src/components/renderer/ComprehensionRenderer.jsx`): one radio
    group per mcq. The state maps each answered mcq id to the index of the
    chosen option; every selection rebuilds the answer that is sent, which
    maps each answered mcq id to the text of the chosen option. */
module ComprehensionRendering {
  import opened Common
  import opened JsObject
  import opened QuestionModel
  import JsValues
  import Scoring

  /** The `selectedAnswerIndices` state. */
  type Selection = Obj<nat>

  /** The answer built for the parent: a value is `None` (`undefined`) when
      the index is past the mcq's options. */
  type Reported = Obj<Option<string>>

  /** `question.mcqs.find(mcq => mcq._id === id)`. */
  function FindMcq(mcqs: seq<Mcq>, id: string): (r: Option<Mcq>)
    ensures r.Some? ==> r.value in mcqs && r.value.id == id
    ensures r.None? <==> forall i :: 0 <= i < |mcqs| ==> mcqs[i].id != id
  {
    if mcqs == [] then None
    else if mcqs[0].id == id then Some(mcqs[0])
    else FindMcq(mcqs[1..], id)
  }

  /** `options[i]`: the option text, or `undefined` past the end. */
  function OptionAt(options: seq<string>, i: nat): (r: Option<string>)
    ensures r.Some? <==> i < |options|
    ensures r.Some? ==> r.value == options[i]
  {
    if i < |options| then Some(options[i]) else None
  }

  /** The text reported for mcq `id`: the chosen option's text when the mcq
      is selected and belongs to the question, `undefined` otherwise. */
  function SelectedText(mcqs: seq<Mcq>, sel: Selection, id: string): Option<string> {
    match Get(sel, id)
    case None => None
    case Some(i) =>
      match FindMcq(mcqs, id)
      case None => None
      case Some(m) => OptionAt(m.options, i)
  }

  /** The `for (const id in newSelectedIndices)` loop, as a definition over
      the selection's entries in key order: an entry whose id names an mcq
      of the question adds that id with the chosen option's text. The answer
      has a key exactly for every selected mcq of the question, none for
      the unselected ones. */
  function Report(mcqs: seq<Mcq>, sel: Selection): (r: Reported)
    ensures forall k :: k in Keys(r) <==> k in Keys(sel) && FindMcq(mcqs, k).Some?
    ensures DistinctKeys(r)
  {
    if sel == [] then []
    else
      var init := sel[..|sel| - 1];
      var last := sel[|sel| - 1];
      assert Keys(sel) == Keys(init) + [last.0];
      var r := Report(mcqs, init);
      match FindMcq(mcqs, last.0)
      case None => r
      case Some(m) => Set(r, last.0, OptionAt(m.options, last.1))
  }

  /** On a selection with distinct keys, the value reported under a key is
      the text of the option chosen for that mcq. */
  lemma {:induction false} ReportValue(mcqs: seq<Mcq>, sel: Selection, k: string)
    requires DistinctKeys(sel) && k in Keys(Report(mcqs, sel))
    ensures Get(Report(mcqs, sel), k) == Some(SelectedText(mcqs, sel, k))
  {
    var init := sel[..|sel| - 1];
    var last := sel[|sel| - 1];
    SnocDistinct(sel);
    var before := Report(mcqs, init);
    match FindMcq(mcqs, last.0)
    case None =>
      assert Report(mcqs, sel) == before;
      assert k != last.0;
      assert Get(sel, k) == Get(init, k);
      assert SelectedText(mcqs, sel, k) == SelectedText(mcqs, init, k);
      ReportValue(mcqs, init, k);
    case Some(m) =>
      assert Report(mcqs, sel) == Set(before, last.0, OptionAt(m.options, last.1));
      if k != last.0 {
        assert Get(sel, k) == Get(init, k);
        assert SelectedText(mcqs, sel, k) == SelectedText(mcqs, init, k);
        assert k in Keys(before);
        ReportValue(mcqs, init, k);
      } else {
        assert Get(sel, k) == Some(last.1);
        assert SelectedText(mcqs, sel, k) == OptionAt(m.options, last.1);
      }
  }

  /** An object with distinct keys, split before its last entry. */
  lemma {:induction false} SnocDistinct<V>(o: Obj<V>)
    requires o != [] && DistinctKeys(o)
    ensures DistinctKeys(o[..|o| - 1]) && o[|o| - 1].0 !in Keys(o[..|o| - 1])
    ensures Get(o, o[|o| - 1].0) == Some(o[|o| - 1].1)
    ensures forall k :: k != o[|o| - 1].0 ==> Get(o, k) == Get(o[..|o| - 1], k)
  {
    if |o| > 1 {
      var t := o[1..];
      SnocDistinct(t);
      assert t[..|t| - 1] == o[..|o| - 1][1..];
      assert Keys(o[..|o| - 1]) == [o[0].0] + Keys(t[..|t| - 1]);
      assert o[0].0 !in Keys(t);
      assert forall k :: k in Keys(t[..|t| - 1]) ==> k in Keys(t) by {
        forall k | k in Keys(t[..|t| - 1]) ensures k in Keys(t) {
          var j :| 0 <= j < |Keys(t[..|t| - 1])| && Keys(t[..|t| - 1])[j] == k;
          assert Keys(t)[j] == k;
        }
      }
      assert o[|o| - 1] == t[|t| - 1];
      assert o[|o| - 1].0 in Keys(t) by {
        assert Keys(t)[|t| - 1] == t[|t| - 1].0;
      }
    }
  }

  /** `JSON.stringify` of the answer: keys holding `undefined` are dropped. */
  function Serialized(r: Reported): (j: JsValues.Json)
    ensures j.JObj?
    ensures DistinctKeys(r) ==> forall k :: (JsValues.Get(j, k) ==
      (if Get(r, k).Some? && Get(r, k).value.Some? then Some(JsValues.JStr(Get(r, k).value.value)) else None))
  {
    if r == [] then JsValues.JObj([])
    else
      var rest := Serialized(r[1..]);
      if r[0].1.Some? then JsValues.JObj([(r[0].0, JsValues.JStr(r[0].1.value))] + rest.fields)
      else rest
  }

  /** The server credits an mcq of the question exactly when the text of the
      option chosen for it (`undefined` if none) strictly equals its
      `correctAnswer`. */
  lemma ScoringReadsSelection(mcqs: seq<Mcq>, sel: Selection, mcq: Mcq)
    requires DistinctKeys(sel) && FindMcq(mcqs, mcq.id) == Some(mcq)
    ensures Scoring.McqEarns(Serialized(Report(mcqs, sel)), mcq) <==> SelectedText(mcqs, sel, mcq.id) == mcq.correctAnswer
  {
    var r := Report(mcqs, sel);
    if mcq.id in Keys(r) {
      ReportValue(mcqs, sel, mcq.id);
    }
  }

  /** `{ ...selectedAnswerIndices, [mcqId]: optionIndex }` followed by the
      report: the (re)selected mcq now reports the new option's text. */
  lemma SelectionOverwrites(mcqs: seq<Mcq>, sel: Selection, mcqId: string, optionIndex: nat)
    requires DistinctKeys(sel) && FindMcq(mcqs, mcqId).Some?
    ensures Get(Report(mcqs, Set(sel, mcqId, optionIndex)), mcqId) == Some(OptionAt(FindMcq(mcqs, mcqId).value.options, optionIndex))
  {
    var sel' := Set(sel, mcqId, optionIndex);
    assert mcqId in Keys(Report(mcqs, sel'));
    ReportValue(mcqs, sel', mcqId);
  }

  /** Selecting an option of one mcq leaves what every other mcq reports
      unchanged. */
  lemma SelectionKeepsOthers(mcqs: seq<Mcq>, sel: Selection, mcqId: string, optionIndex: nat, k: string)
    requires DistinctKeys(sel) && k != mcqId
    ensures Get(Report(mcqs, Set(sel, mcqId, optionIndex)), k) == Get(Report(mcqs, sel), k)
  {
    var sel' := Set(sel, mcqId, optionIndex);
    var before, after := Report(mcqs, sel), Report(mcqs, sel');
    assert Get(sel', k) == Get(sel, k);
    assert k in Keys(after) <==> k in Keys(before);
    if k in Keys(after) {
      ReportValue(mcqs, sel', k);
      ReportValue(mcqs, sel, k);
      SelectedTextOfSame(mcqs, sel', sel, k);
    } else {
      assert Get(after, k).None? && Get(before, k).None?;
    }
  }

  /** The text reported for `k` depends only on the index selected for `k`. */
  lemma SelectedTextOfSame(mcqs: seq<Mcq>, a: Selection, b: Selection, k: string)
    requires Get(a, k) == Get(b, k)
    ensures SelectedText(mcqs, a, k) == SelectedText(mcqs, b, k)
  {
  }

  /** Building the report, one iteration per key of the new selection. */
  method BuildAnswer(mcqs: seq<Mcq>, sel: Selection) returns (answers: Reported)
    ensures answers == Report(mcqs, sel)
  {
    answers := [];
    var i := 0;
    while i < |sel|
      invariant 0 <= i <= |sel|
      invariant answers == Report(mcqs, sel[..i])
    {
      var id := sel[i].0;
      var questionForMcq := FindMcq(mcqs, id);
      assert sel[..i + 1][..i] == sel[..i];
      if questionForMcq.Some? {
        answers := Set(answers, id, OptionAt(questionForMcq.value.options, sel[i].1));
      }
      i := i + 1;
    }
    assert sel[..i] == sel;
  }

  /** The component: the selection state and the change handler, which
      returns the answer handed to `onAnswerChange`. */
  class ComprehensionRenderer {
    var selectedAnswerIndices: Selection

    constructor()
      ensures selectedAnswerIndices == []
    {
      selectedAnswerIndices := [];
    }

    method HandleSelection(mcqs: seq<Mcq>, mcqId: string, optionIndex: nat) returns (answer: Reported)
      modifies this
      ensures selectedAnswerIndices == Set(old(selectedAnswerIndices), mcqId, optionIndex)
      ensures answer == Report(mcqs, selectedAnswerIndices)
    {
      var newSelectedIndices := Set(selectedAnswerIndices, mcqId, optionIndex);
      selectedAnswerIndices := newSelectedIndices;
      answer := BuildAnswer(mcqs, newSelectedIndices);
    }
  }
}
