/** The author's Multiple Choice editor
    (`client/src/components/builder/MultipleChoiceBuilder.jsx`): a question
    text, a list of option texts and the index of the correct option; the
    correct answer sent on save is the option text at that index. */
module MultipleChoiceBuilding {
  import opened Common

  /** The editor's state. The index is an `int`: loading can set it to -1. */
  datatype State = State(questionText: string, options: seq<string>, correctAnswerIndex: int)

  /** The fields of the question being edited, when there is one. */
  datatype InitialData = InitialData(text: Option<string>, options: Option<seq<string>>, correctAnswer: Option<string>)

  const DefaultText := "Your Question Here"
  const DefaultOptions: seq<string> := ["Option 1", "Option 2"]

  /** `options.indexOf(x)`: the first position of `x`, -1 when it is absent
      (and always for `undefined`). */
  function IndexOf(options: seq<string>, x: Option<string>): (r: int)
    ensures -1 <= r < |options|
    ensures r == -1 <==> x.None? || x.value !in options
    ensures r >= 0 ==> options[r] == x.value && forall j :: 0 <= j < r ==> options[j] != x.value
  {
    if x.None? || options == [] then -1
    else if options[0] == x.value then 0
    else
      var r := IndexOf(options[1..], x);
      if r == -1 then -1 else r + 1
  }

  /** `options[i]`: `undefined` for an index outside the list. */
  function OptionAt(options: seq<string>, i: int): (r: Option<string>)
    ensures r.Some? <==> 0 <= i < |options|
    ensures r.Some? ==> r.value == options[i]
  {
    if 0 <= i < |options| then Some(options[i]) else None
  }

  /** The state once the loading effect has run. The index is
      `options?.indexOf(correctAnswer) || 0`: 0 when the question has no
      options, otherwise the index found, where a -1 survives since -1 is
      truthy. */
  function Load(initial: Option<InitialData>): (s: State)
    ensures initial.None? ==> s == State(DefaultText, DefaultOptions, 0)
    ensures initial.Some? && initial.value.options.None? ==> s.options == DefaultOptions && s.correctAnswerIndex == 0
    ensures initial.Some? && initial.value.options.Some? ==>
      s.options == initial.value.options.value && s.correctAnswerIndex == IndexOf(s.options, initial.value.correctAnswer)
    ensures s.questionText != ""
  {
    match initial
    case None => State(DefaultText, DefaultOptions, 0)
    case Some(d) =>
      var text := if d.text.Some? && d.text.value != "" then d.text.value else DefaultText;
      var found := if d.options.Some? then IndexOf(d.options.value, d.correctAnswer) else 0;
      State(text, d.options.GetOr(DefaultOptions), if found != 0 then found else 0)
  }

  /** The body `handleSave` hands to `onSave` for type `MultipleChoice`. */
  datatype Payload = Payload(text: string, options: seq<string>, correctAnswer: Option<string>)

  /** `handleSave`: the correct answer is `options[correctAnswerIndex]`. */
  function Save(s: State): (p: Payload)
    ensures p.text == s.questionText && p.options == s.options
    ensures p.correctAnswer.Some? <==> 0 <= s.correctAnswerIndex < |s.options|
    ensures p.correctAnswer.Some? ==> p.correctAnswer.value in s.options
  {
    Payload(s.questionText, s.options, OptionAt(s.options, s.correctAnswerIndex))
  }

  /** Loading a question and saving it unedited gives back its correct
      answer when that is one of its options; an answer that is not among
      them (or none) is saved as `undefined`. */
  lemma LoadSaveRoundTrip(d: InitialData)
    requires d.options.Some?
    ensures d.correctAnswer.Some? && d.correctAnswer.value in d.options.value ==> Save(Load(Some(d))).correctAnswer == d.correctAnswer
    ensures d.correctAnswer.None? || d.correctAnswer.value !in d.options.value ==>
      Load(Some(d)).correctAnswerIndex == -1 && Save(Load(Some(d))).correctAnswer.None?
  {
  }

  /** `setCorrectAnswerIndex(index)` from an option's radio button. */
  function SetCorrect(s: State, index: nat): (r: State)
    requires index < |s.options|
    ensures Save(r).correctAnswer == Some(s.options[index]) && r.options == s.options
  {
    s.(correctAnswerIndex := index)
  }

  /** `handleOptionChange(index, value)`: the correct answer is held by
      index, so editing the correct option's text edits the answer too. */
  function EditOption(s: State, index: nat, value: string): (r: State)
    requires index < |s.options|
    ensures |r.options| == |s.options| && r.options[index] == value
    ensures forall i :: 0 <= i < |s.options| && i != index ==> r.options[i] == s.options[i]
    ensures r.correctAnswerIndex == s.correctAnswerIndex
    ensures index as int == s.correctAnswerIndex ==> Save(r).correctAnswer == Some(value)
    ensures index as int != s.correctAnswerIndex ==> Save(r).correctAnswer == Save(s).correctAnswer
  {
    s.(options := s.options[index := value])
  }

  /** `addOption`: the correct answer is unchanged. */
  function AddedOption(s: State): (r: State)
    ensures r.options == s.options + ["New Option"] && r.correctAnswerIndex == s.correctAnswerIndex
    ensures 0 <= s.correctAnswerIndex < |s.options| ==> Save(r).correctAnswer == Save(s).correctAnswer
  {
    s.(options := s.options + ["New Option"])
  }

  /** What `removeOption` does. */
  datatype Removal = Refused | Removed(state: State)

  /** `removeOption(index)`: refused (an alert) when at most two options
      remain; otherwise the option goes, and the correct index becomes 0
      if it was the one removed and stays as it is otherwise. */
  function RemoveOption(s: State, index: nat): (r: Removal)
    requires index < |s.options|
    ensures r.Refused? <==> |s.options| <= 2
    ensures r.Removed? ==> r.state.options == RemoveAt(s.options, index) && |r.state.options| >= 2
    ensures r.Removed? ==> r.state.correctAnswerIndex == (if s.correctAnswerIndex == index as int then 0 else s.correctAnswerIndex)
  {
    if |s.options| <= 2 then Refused
    else
      var newOptions := RemoveAt(s.options, index);
      Removed(State(s.questionText, newOptions, if s.correctAnswerIndex == index as int then 0 else s.correctAnswerIndex))
  }

  /** The saved answer after removing an option: the first remaining option
      when the correct one was removed, the same text when a later one was
      removed, and the text after it when an earlier one was removed, which
      is `undefined` when the last option was the correct one. */
  lemma RemoveMovesKey(s: State, index: nat)
    requires index < |s.options| && RemoveOption(s, index).Removed?
    requires 0 <= s.correctAnswerIndex < |s.options|
    ensures var after := Save(RemoveOption(s, index).state).correctAnswer;
      var k := s.correctAnswerIndex;
      && (k == index ==> after == Some(RemoveAt(s.options, index)[0]))
      && (k < index ==> after == Some(s.options[k]))
      && (index < k < |s.options| - 1 ==> after == Some(s.options[k + 1]))
      && (index < k == |s.options| - 1 ==> after.None?)
  {
  }

  /** With distinct options, removing one before the correct option changes
      which text is saved as correct. */
  lemma RemoveBeforeChangesKey(s: State, index: nat)
    requires index < |s.options| && RemoveOption(s, index).Removed? && NoDup(s.options)
    requires index < s.correctAnswerIndex < |s.options|
    ensures Save(RemoveOption(s, index).state).correctAnswer != Save(s).correctAnswer
  {
    RemoveMovesKey(s, index);
  }

  /** The editor. */
  class MultipleChoiceBuilder {
    var questionText: string
    var options: seq<string>
    var correctAnswerIndex: int

    function Current(): State
      reads this
    {
      State(questionText, options, correctAnswerIndex)
    }

    /** Mounting the editor and running its loading effect. */
    constructor(initial: Option<InitialData>)
      ensures Current() == Load(initial)
    {
      var s := Load(initial);
      questionText, options, correctAnswerIndex := s.questionText, s.options, s.correctAnswerIndex;
    }

    method SetCorrectAnswerIndex(index: nat)
      requires index < |options|
      modifies this
      ensures Current() == SetCorrect(old(Current()), index)
    {
      correctAnswerIndex := index;
    }

    method HandleOptionChange(index: nat, value: string)
      requires index < |options|
      modifies this
      ensures Current() == EditOption(old(Current()), index, value)
    {
      options := options[index := value];
    }

    method AddOption()
      modifies this
      ensures Current() == AddedOption(old(Current()))
    {
      options := options + ["New Option"];
    }

    method HandleRemoveOption(index: nat) returns (refused: bool)
      requires index < |options|
      modifies this
      ensures refused <==> RemoveOption(old(Current()), index).Refused?
      ensures refused ==> Current() == old(Current())
      ensures !refused ==> Current() == RemoveOption(old(Current()), index).state
    {
      if |options| <= 2 {
        return true;
      }
      var newOptions := RemoveAt(options, index);
      options := newOptions;
      if correctAnswerIndex == index as int {
        correctAnswerIndex := 0;
      }
      refused := false;
    }

    method HandleSave() returns (p: Payload)
      ensures p == Save(Current())
    {
      p := Payload(questionText, options, if 0 <= correctAnswerIndex < |options| then Some(options[correctAnswerIndex]) else None);
    }
  }
}
