/** The author's Dropdown editor
    (`client/src/components/builder/DropdownBuilder.jsx`): a question text,
    a list of option texts and the correct answer, held as a text and
    chosen from a select over the options. */
module DropdownBuilding {
  import opened Common

  /** The editor's state; the correct answer is `None` when it is
      `undefined`. */
  datatype State = State(questionText: string, options: seq<string>, correctAnswer: Option<string>)

  /** The fields of the question being edited, when there is one. */
  datatype InitialData = InitialData(text: Option<string>, options: Option<seq<string>>, correctAnswer: Option<string>)

  const DefaultText := "Your Question Here"
  const DefaultOptions: seq<string> := ["Option 1", "Option 2"]

  /** The loading effect either sets the state or throws (a `TypeError`). */
  datatype Loaded = Loaded(state: State) | LoadCrash

  /** The loading effect: the correct answer is the question's own when it
      is a non-empty text, otherwise `options[0]`, which throws when the
      question has no options and is `undefined` when they are empty. */
  function Load(initial: Option<InitialData>): (r: Loaded)
    ensures initial.None? ==> r == Loaded(State(DefaultText, DefaultOptions, Some("Option 1")))
    ensures r.LoadCrash? <==> initial.Some? && (initial.value.correctAnswer.None? || initial.value.correctAnswer == Some("")) && initial.value.options.None?
    ensures initial.Some? && initial.value.correctAnswer.Some? && initial.value.correctAnswer != Some("") ==>
      r.Loaded? && r.state.correctAnswer == initial.value.correctAnswer
    ensures initial.Some? && r.Loaded? && (initial.value.correctAnswer.None? || initial.value.correctAnswer == Some("")) ==>
      r.state.correctAnswer == (if |r.state.options| > 0 then Some(r.state.options[0]) else None)
    ensures r.Loaded? && initial.Some? && initial.value.options.Some? ==> r.state.options == initial.value.options.value
  {
    match initial
    case None => Loaded(State(DefaultText, DefaultOptions, Some("Option 1")))
    case Some(d) =>
      var text := if d.text.Some? && d.text.value != "" then d.text.value else DefaultText;
      var options := d.options.GetOr(DefaultOptions);
      if d.correctAnswer.Some? && d.correctAnswer.value != "" then Loaded(State(text, options, d.correctAnswer))
      else if d.options.None? then LoadCrash
      else Loaded(State(text, options, if |d.options.value| > 0 then Some(d.options.value[0]) else None))
  }

  /** The correct answer is one of the options. */
  predicate KeyIsOption(s: State) {
    s.correctAnswer.Some? && s.correctAnswer.value in s.options
  }

  /** A new question starts with its first option as the answer. */
  lemma FreshKeyIsOption()
    ensures Load(None).Loaded? && KeyIsOption(Load(None).state)
  {
    assert DefaultOptions[0] == "Option 1";
  }

  /** Choosing the answer in the select. */
  function SelectCorrect(s: State, value: string): (r: State)
    requires value in s.options
    ensures r.correctAnswer == Some(value) && r.options == s.options && KeyIsOption(r)
  {
    s.(correctAnswer := Some(value))
  }

  /** `handleOptionChange(index, value)`: the answer is not updated. */
  function EditOption(s: State, index: nat, value: string): (r: State)
    requires index < |s.options|
    ensures |r.options| == |s.options| && r.options[index] == value
    ensures forall i :: 0 <= i < |s.options| && i != index ==> r.options[i] == s.options[i]
    ensures r.correctAnswer == s.correctAnswer
  {
    s.(options := s.options[index := value])
  }

  /** Renaming the correct option leaves an answer that no option has. */
  lemma EditLeavesStaleKey(s: State, index: nat, value: string)
    requires index < |s.options| && NoDup(s.options) && s.correctAnswer == Some(s.options[index])
    requires value != s.options[index]
    ensures !KeyIsOption(EditOption(s, index, value))
  {
  }

  /** `addOption`. */
  function AddedOption(s: State): (r: State)
    ensures r.options == s.options + ["New Option"] && r.correctAnswer == s.correctAnswer
    ensures KeyIsOption(s) ==> KeyIsOption(r)
  {
    s.(options := s.options + ["New Option"])
  }

  /** What `removeOption` does. */
  datatype Removal = Refused | Removed(state: State)

  /** `removeOption(index)`: refused (an alert) when at most two options
      remain; otherwise the option goes, and when it was the answer the
      answer becomes the first option of the list before the removal. */
  function RemoveOption(s: State, index: nat): (r: Removal)
    requires index < |s.options|
    ensures r.Refused? <==> |s.options| <= 2
    ensures r.Removed? ==> r.state.options == RemoveAt(s.options, index) && |r.state.options| >= 2
    ensures r.Removed? && s.correctAnswer == Some(s.options[index]) ==> r.state.correctAnswer == Some(s.options[0])
    ensures r.Removed? && s.correctAnswer != Some(s.options[index]) ==> r.state.correctAnswer == s.correctAnswer
  {
    if |s.options| <= 2 then Refused
    else
      var removedOption := s.options[index];
      var newOptions := RemoveAt(s.options, index);
      Removed(State(s.questionText, newOptions, if s.correctAnswer == Some(removedOption) then Some(s.options[0]) else s.correctAnswer))
  }

  /** Removing an option keeps the answer an option, except when the answer
      was the first option and that one is removed. */
  lemma RemoveKeepsKey(s: State, index: nat)
    requires index < |s.options| && RemoveOption(s, index).Removed? && KeyIsOption(s)
    requires index != 0 || s.correctAnswer != Some(s.options[0])
    ensures KeyIsOption(RemoveOption(s, index).state)
  {
    var r := RemoveOption(s, index).state;
    if s.correctAnswer == Some(s.options[index]) {
      assert r.options[0] == s.options[0];
    } else {
      var j :| 0 <= j < |s.options| && s.options[j] == s.correctAnswer.value;
      if j < index {
        assert r.options[j] == s.options[j];
      } else {
        assert r.options[j - 1] == s.options[j];
      }
    }
  }

  /** With distinct options, removing the first option while it is the
      answer keeps the removed text as the answer. */
  lemma RemoveFirstStrandsKey(s: State)
    requires |s.options| > 2 && NoDup(s.options) && s.correctAnswer == Some(s.options[0])
    ensures RemoveOption(s, 0).Removed?
    ensures RemoveOption(s, 0).state.correctAnswer == Some(s.options[0])
    ensures !KeyIsOption(RemoveOption(s, 0).state)
  {
  }

  /** The body `handleSave` hands to `onSave` for type `Dropdown`. */
  datatype Payload = Payload(text: string, options: seq<string>, correctAnswer: Option<string>)

  /** The editor. */
  class DropdownBuilder {
    var questionText: string
    var options: seq<string>
    var correctAnswer: Option<string>

    function Current(): State
      reads this
    {
      State(questionText, options, correctAnswer)
    }

    /** Mounting the editor of a new question. */
    constructor()
      ensures Load(None) == Loaded(Current())
    {
      questionText, options, correctAnswer := DefaultText, DefaultOptions, Some("Option 1");
    }

    /** Running the loading effect for a question being edited; when it
        throws the state is not updated (`crashed`). */
    method LoadInitial(initial: InitialData) returns (crashed: bool)
      modifies this
      ensures crashed <==> Load(Some(initial)).LoadCrash?
      ensures !crashed ==> Current() == Load(Some(initial)).state
    {
      match Load(Some(initial))
      case LoadCrash => crashed := true;
      case Loaded(s) =>
        questionText, options, correctAnswer := s.questionText, s.options, s.correctAnswer;
        crashed := false;
    }

    method SetCorrectAnswer(value: string)
      requires value in options
      modifies this
      ensures Current() == SelectCorrect(old(Current()), value)
    {
      correctAnswer := Some(value);
    }

    method HandleOptionChange(index: nat, value: string)
      requires index < |options|
      modifies this
      ensures Current() == EditOption(old(Current()), index, value)
    {
      options := options[index := value];
    }

    method AddOption()
      modifies this
      ensures Current() == AddedOption(old(Current()))
    {
      options := options + ["New Option"];
    }

    method HandleRemoveOption(index: nat) returns (refused: bool)
      requires index < |options|
      modifies this
      ensures refused <==> RemoveOption(old(Current()), index).Refused?
      ensures refused ==> Current() == old(Current())
      ensures !refused ==> Current() == RemoveOption(old(Current()), index).state
    {
      if |options| <= 2 {
        return true;
      }
      var removedOption := options[index];
      var first := options[0];
      options := RemoveAt(options, index);
      if correctAnswer == Some(removedOption) {
        correctAnswer := Some(first);
      }
      refused := false;
    }

    /** `handleSave` sends the state as it is. */
    method HandleSave() returns (p: Payload)
      ensures p.text == questionText && p.options == options && p.correctAnswer == correctAnswer
    {
      p := Payload(questionText, options, correctAnswer);
    }
  }
}
