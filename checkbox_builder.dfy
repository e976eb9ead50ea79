/** The author's Checkbox editor
    (`client/src/components/builder/CheckboxBuilder.jsx`): a question text,
    a list of option texts and the list of the texts that are correct. */
module CheckboxBuilding {
  import opened Common

  /** The editor's state. */
  datatype State = State(questionText: string, options: seq<string>, correctAnswers: seq<string>)

  /** The fields of the question being edited, when there is one. */
  datatype InitialData = InitialData(text: Option<string>, options: Option<seq<string>>, correctAnswers: Option<seq<string>>)

  const DefaultText := "Your Question Here"
  const DefaultOptions: seq<string> := ["Option 1", "Option 2"]

  /** The state once the loading effect has run: the question's fields, each
      defaulted when absent (and the text also when empty), or the defaults
      for a new question. */
  function Load(initial: Option<InitialData>): (s: State)
    ensures initial.None? ==> s == State(DefaultText, DefaultOptions, [])
    ensures initial.Some? ==>
      s.questionText == (if initial.value.text.Some? && initial.value.text.value != "" then initial.value.text.value else DefaultText)
    ensures initial.Some? ==> s.options == initial.value.options.GetOr(DefaultOptions)
    ensures initial.Some? ==> s.correctAnswers == initial.value.correctAnswers.GetOr([])
    ensures s.questionText != ""
  {
    match initial
    case None => State(DefaultText, DefaultOptions, [])
    case Some(d) =>
      State(if d.text.Some? && d.text.value != "" then d.text.value else DefaultText,
            d.options.GetOr(DefaultOptions), d.correctAnswers.GetOr([]))
  }

  /** `handleCorrectChange(optionText)`: a correct text becomes incorrect
      (every copy is dropped), any other text is appended. */
  function Toggle(correct: seq<string>, text: string): (r: seq<string>)
    ensures text in r <==> text !in correct
    ensures forall t :: t != text ==> (t in r <==> t in correct)
  {
    if text in correct then Without(correct, text) else correct + [text]
  }

  /** Toggling twice restores which texts are correct, and restores the list
      itself when the text was not correct. */
  lemma ToggleTwice(correct: seq<string>, text: string)
    ensures forall t :: t in Toggle(Toggle(correct, text), text) <==> t in correct
    ensures text !in correct ==> Toggle(Toggle(correct, text), text) == correct
  {
    if text !in correct {
      var once := correct + [text];
      assert Without(once, text) == correct by {
        WithoutAppend(correct, text);
      }
    }
  }

  lemma {:induction false} WithoutAppend(xs: seq<string>, x: string)
    requires x !in xs
    ensures Without(xs + [x], x) == xs
  {
    if xs != [] {
      assert (xs + [x])[1..] == xs[1..] + [x];
      WithoutAppend(xs[1..], x);
    } else {
      assert Without([x], x) == Without([], x);
    }
  }

  /** `handleOptionChange(index, value)`: the option is renamed; the correct
      answers keep the old text. */
  function EditOption(s: State, index: nat, value: string): (r: State)
    requires index < |s.options|
    ensures |r.options| == |s.options| && r.options[index] == value
    ensures forall i :: 0 <= i < |s.options| && i != index ==> r.options[i] == s.options[i]
    ensures r.correctAnswers == s.correctAnswers && r.questionText == s.questionText
  {
    s.(options := s.options[index := value])
  }

  /** `addOption`. */
  function AddedOption(s: State): (r: State)
    ensures r.options == s.options + ["New Option"] && r.correctAnswers == s.correctAnswers && r.questionText == s.questionText
  {
    s.(options := s.options + ["New Option"])
  }

  /** What `removeOption` does: refuses (an alert) to remove the last option,
      otherwise the new state. */
  datatype Removal = Refused | Removed(state: State)

  /** `removeOption(index)`: the option at `index` goes, and so does every
      copy of its text among the correct answers. */
  function RemoveOption(s: State, index: nat): (r: Removal)
    requires index < |s.options|
    ensures r.Refused? <==> |s.options| <= 1
    ensures r.Removed? ==> r.state.options == RemoveAt(s.options, index) && r.state.questionText == s.questionText
    ensures r.Removed? ==> multiset(r.state.correctAnswers) == multiset(s.correctAnswers)[s.options[index] := 0]
    ensures r.Removed? ==> |r.state.options| >= 1
  {
    if |s.options| <= 1 then Refused
    else
      var removedOption := s.options[index];
      Removed(State(s.questionText, RemoveAt(s.options, index), Without(s.correctAnswers, removedOption)))
  }

  /** Every correct answer is one of the options. */
  predicate KeysAreOptions(s: State) {
    forall t :: t in s.correctAnswers ==> t in s.options
  }

  /** Toggling an option's checkbox, adding an option and removing one keep
      every correct answer an option. */
  lemma EditsKeepKeys(s: State, text: string, index: nat)
    requires KeysAreOptions(s)
    ensures text in s.options ==> KeysAreOptions(s.(correctAnswers := Toggle(s.correctAnswers, text)))
    ensures KeysAreOptions(AddedOption(s))
    ensures index < |s.options| && RemoveOption(s, index).Removed? ==> KeysAreOptions(RemoveOption(s, index).state)
  {
    if index < |s.options| && RemoveOption(s, index).Removed? {
      var r := RemoveOption(s, index).state;
      forall t | t in r.correctAnswers ensures t in r.options {
        assert t != s.options[index] && t in s.options;
        var i :| 0 <= i < |s.options| && s.options[i] == t;
        if i < index {
          assert r.options[i] == t;
        } else {
          assert i > index && r.options[i - 1] == t;
        }
      }
    }
  }

  /** Renaming a correct option leaves its old text among the correct
      answers though no option has it any more. */
  lemma EditLeavesStaleKey(s: State, index: nat, value: string)
    requires index < |s.options| && NoDup(s.options) && s.options[index] in s.correctAnswers
    requires value != s.options[index]
    ensures var r := EditOption(s, index, value);
      s.options[index] in r.correctAnswers && s.options[index] !in r.options
  {
  }

  /** The body `handleSave` hands to `onSave` for type `Checkbox`. */
  datatype Payload = Payload(text: string, options: seq<string>, correctAnswers: seq<string>)

  /** The editor. */
  class CheckboxBuilder {
    var questionText: string
    var options: seq<string>
    var correctAnswers: seq<string>

    function Current(): State
      reads this
    {
      State(questionText, options, correctAnswers)
    }

    /** Mounting the editor and running its loading effect. */
    constructor(initial: Option<InitialData>)
      ensures Current() == Load(initial)
    {
      var s := Load(initial);
      questionText, options, correctAnswers := s.questionText, s.options, s.correctAnswers;
    }

    method HandleCorrectChange(optionText: string)
      modifies this
      ensures Current() == old(Current()).(correctAnswers := Toggle(old(correctAnswers), optionText))
    {
      if optionText in correctAnswers {
        correctAnswers := Without(correctAnswers, optionText);
      } else {
        correctAnswers := correctAnswers + [optionText];
      }
    }

    method HandleOptionChange(index: nat, value: string)
      requires index < |options|
      modifies this
      ensures Current() == EditOption(old(Current()), index, value)
    {
      options := options[index := value];
    }

    method AddOption()
      modifies this
      ensures Current() == AddedOption(old(Current()))
    {
      options := options + ["New Option"];
    }

    method HandleRemoveOption(index: nat) returns (refused: bool)
      requires index < |options|
      modifies this
      ensures refused <==> RemoveOption(old(Current()), index).Refused?
      ensures refused ==> Current() == old(Current())
      ensures !refused ==> Current() == RemoveOption(old(Current()), index).state
    {
      if |options| <= 1 {
        return true;
      }
      var removedOption := options[index];
      options := RemoveAt(options, index);
      correctAnswers := Without(correctAnswers, removedOption);
      refused := false;
    }

    /** `handleSave` sends the state as it is. */
    method HandleSave() returns (p: Payload)
      ensures p.text == questionText && p.options == options && p.correctAnswers == correctAnswers
    {
      p := Payload(questionText, options, correctAnswers);
    }
  }
}
