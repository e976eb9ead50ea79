/** The author's Picture Choice editor
    (`client/src/components/builder/PictureChoiceBuilder.jsx`): a question
    text and a list of picture options, each with an image URL and a flag
    marking it correct; a radio group keeps one option marked. */
module PictureChoiceBuilding {
  import opened Common

  /** One option: its image URL (`''` before an upload) and whether it is
      marked correct. */
  datatype PictureOption = PictureOption(image: string, isCorrect: bool)

  /** The editor's state. */
  datatype State = State(questionText: string, options: seq<PictureOption>)

  /** The fields of the question being edited, when there is one. */
  datatype InitialData = InitialData(text: Option<string>, options: Option<seq<string>>, correctAnswer: Option<string>)

  const DefaultText := "Which one is correct?"
  const DefaultOptions: seq<PictureOption> := [PictureOption("", true), PictureOption("", false)]

  /** No two options are marked correct. */
  predicate AtMostOneCorrect(options: seq<PictureOption>) {
    forall a, b :: 0 <= a < |options| && 0 <= b < |options| && options[a].isCorrect && options[b].isCorrect ==> a == b
  }

  /** Exactly the option at `i` is marked correct. */
  predicate OnlyCorrect(options: seq<PictureOption>, i: nat) {
    i < |options| && forall j :: 0 <= j < |options| ==> (options[j].isCorrect <==> j == i)
  }

  /** `initialData.options.map(imgUrl => ({ image: imgUrl, isCorrect: imgUrl === initialData.correctAnswer }))`. */
  function Marked(images: seq<string>, correctAnswer: Option<string>): (r: seq<PictureOption>)
    ensures |r| == |images|
    ensures forall i :: 0 <= i < |images| ==> r[i] == PictureOption(images[i], Some(images[i]) == correctAnswer)
  {
    if images == [] then []
    else [PictureOption(images[0], Some(images[0]) == correctAnswer)] + Marked(images[1..], correctAnswer)
  }

  /** The state once the loading effect has run: a question's non-empty
      list of images replaces the default options, each marked correct when
      it equals the question's correct answer. */
  function Load(initial: Option<InitialData>): (s: State)
    ensures initial.None? ==> s == State(DefaultText, DefaultOptions)
    ensures initial.Some? && initial.value.options.Some? && |initial.value.options.value| > 0 ==>
      s.options == Marked(initial.value.options.value, initial.value.correctAnswer)
    ensures initial.Some? && (initial.value.options.None? || initial.value.options.value == []) ==> s.options == DefaultOptions
    ensures s.questionText != ""
  {
    match initial
    case None => State(DefaultText, DefaultOptions)
    case Some(d) =>
      var text := if d.text.Some? && d.text.value != "" then d.text.value else DefaultText;
      if d.options.Some? && |d.options.value| > 0 then State(text, Marked(d.options.value, d.correctAnswer))
      else State(text, DefaultOptions)
  }

  /** A new question starts with exactly its first option marked. */
  lemma FreshMarksFirst()
    ensures OnlyCorrect(Load(None).options, 0)
  {
  }

  /** Loading marks every copy of the correct image, so duplicate images
      give more than one marked option. */
  lemma LoadMarksDuplicates(url: string)
    ensures var s := Load(Some(InitialData(None, Some([url, url]), Some(url))));
      s.options[0].isCorrect && s.options[1].isCorrect && !AtMostOneCorrect(s.options)
  {
  }

  /** `setCorrect(index)`: exactly that option becomes the marked one. */
  function SetCorrect(options: seq<PictureOption>, index: nat): (r: seq<PictureOption>)
    requires index < |options|
    ensures OnlyCorrect(r, index)
    ensures |r| == |options| && forall j :: 0 <= j < |options| ==> r[j].image == options[j].image
  {
    seq(|options|, j requires 0 <= j < |options| => options[j].(isCorrect := j == index))
  }

  /** `handleImageUpload(index, url)`: the upload itself is not part of this
      model; its resulting URL becomes the option's image. */
  function SetImage(options: seq<PictureOption>, index: nat, url: string): (r: seq<PictureOption>)
    requires index < |options|
    ensures |r| == |options| && r[index] == options[index].(image := url)
    ensures forall j :: 0 <= j < |options| && j != index ==> r[j] == options[j]
  {
    options[index := options[index].(image := url)]
  }

  /** `addOption`: an unmarked option without image. */
  function AddedOption(options: seq<PictureOption>): (r: seq<PictureOption>)
    ensures r == options + [PictureOption("", false)]
    ensures AtMostOneCorrect(options) ==> AtMostOneCorrect(r)
    ensures forall i :: OnlyCorrect(options, i) ==> OnlyCorrect(r, i)
  {
    options + [PictureOption("", false)]
  }

  /** What `removeOption` does. */
  datatype Removal = Refused | Removed(options: seq<PictureOption>)

  /** `removeOption(index)`: refused (an alert) when at most two options
      remain, otherwise that option goes. */
  function RemoveOption(options: seq<PictureOption>, index: nat): (r: Removal)
    requires index < |options|
    ensures r.Refused? <==> |options| <= 2
    ensures r.Removed? ==> r.options == RemoveAt(options, index) && |r.options| >= 2
  {
    if |options| <= 2 then Refused else Removed(RemoveAt(options, index))
  }

  /** Every edit keeps at most one option marked. */
  lemma EditsKeepAtMostOne(options: seq<PictureOption>, index: nat, url: string)
    requires AtMostOneCorrect(options)
    ensures index < |options| ==> AtMostOneCorrect(SetImage(options, index, url))
    ensures index < |options| && RemoveOption(options, index).Removed? ==> AtMostOneCorrect(RemoveOption(options, index).options)
  {
    if index < |options| && RemoveOption(options, index).Removed? {
      var r := RemoveOption(options, index).options;
      forall a, b | 0 <= a < |r| && 0 <= b < |r| && r[a].isCorrect && r[b].isCorrect ensures a == b {
        var a', b' := if a < index then a else a + 1, if b < index then b else b + 1;
        assert r[a] == options[a'] && r[b] == options[b'];
      }
    }
  }

  /** Removing the marked option leaves none marked. */
  lemma RemoveMarkedLeavesNone(options: seq<PictureOption>, index: nat)
    requires OnlyCorrect(options, index) && RemoveOption(options, index).Removed?
    ensures forall j :: 0 <= j < |RemoveOption(options, index).options| ==> !RemoveOption(options, index).options[j].isCorrect
  {
    var r := RemoveOption(options, index).options;
    forall j | 0 <= j < |r| ensures !r[j].isCorrect {
      if j < index {
        assert r[j] == options[j];
      } else {
        assert r[j] == options[j + 1];
      }
    }
  }

  /** The body `handleSave` hands to `onSave` for type `PictureChoice`:
      the image URLs in order and the correct one (`None` for `null`). */
  datatype Payload = Payload(text: string, options: seq<string>, correctAnswer: Option<string>)

  /** `options.map(opt => opt.image)`. */
  function Images(options: seq<PictureOption>): (r: seq<string>)
    ensures |r| == |options| && forall i :: 0 <= i < |options| ==> r[i] == options[i].image
  {
    seq(|options|, i requires 0 <= i < |options| => options[i].image)
  }

  /** The first option marked correct. */
  function FirstCorrect(options: seq<PictureOption>): (r: Option<nat>)
    ensures r.None? <==> forall j :: 0 <= j < |options| ==> !options[j].isCorrect
    ensures r.Some? ==> r.value < |options| && options[r.value].isCorrect
    ensures r.Some? ==> forall j :: 0 <= j < r.value ==> !options[j].isCorrect
  {
    if options == [] then None
    else if options[0].isCorrect then Some(0)
    else
      var r := FirstCorrect(options[1..]);
      if r.None? then None else Some(r.value + 1)
  }

  /** `handleSave`: refused (an alert) while some option has no image;
      otherwise the images, with the image of the first marked option as the
      correct answer, or `null` when none is marked. */
  function Save(s: State): (r: Option<Payload>)
    ensures r.Some? <==> forall j :: 0 <= j < |s.options| ==> s.options[j].image != ""
    ensures r.Some? ==> r.value.text == s.questionText && r.value.options == Images(s.options)
    ensures r.Some? ==> (r.value.correctAnswer.None? <==> forall j :: 0 <= j < |s.options| ==> !s.options[j].isCorrect)
    ensures r.Some? && FirstCorrect(s.options).Some? ==> r.value.correctAnswer == Some(s.options[FirstCorrect(s.options).value].image)
    ensures r.Some? && r.value.correctAnswer.Some? ==> r.value.correctAnswer.value in r.value.options
  {
    var correctOption := FirstCorrect(s.options);
    if exists j :: 0 <= j < |s.options| && s.options[j].image == "" then None
    else Some(Payload(s.questionText, Images(s.options), if correctOption.Some? then Some(s.options[correctOption.value].image) else None))
  }

  /** With exactly one option marked, the saved answer is its image. */
  lemma SaveSendsMarkedImage(s: State, i: nat)
    requires OnlyCorrect(s.options, i) && Save(s).Some?
    ensures Save(s).value.correctAnswer == Some(s.options[i].image)
  {
  }

  /** Saving and loading again restores the editor when exactly one option
      is marked and the images are distinct. */
  lemma SaveLoadRoundTrip(s: State, i: nat)
    requires OnlyCorrect(s.options, i) && Save(s).Some? && s.questionText != ""
    requires NoDup(Images(s.options))
    ensures var p := Save(s).value;
      Load(Some(InitialData(Some(p.text), Some(p.options), p.correctAnswer))) == s
  {
    var p := Save(s).value;
    SaveSendsMarkedImage(s, i);
    var r := Marked(p.options, p.correctAnswer);
    forall j | 0 <= j < |s.options| ensures r[j] == s.options[j] {
      assert p.options[j] == s.options[j].image;
      if j != i {
        assert Images(s.options)[j] != Images(s.options)[i];
      }
    }
  }

  /** The editor. */
  class PictureChoiceBuilder {
    var questionText: string
    var options: seq<PictureOption>

    function Current(): State
      reads this
    {
      State(questionText, options)
    }

    /** Mounting the editor and running its loading effect. */
    constructor(initial: Option<InitialData>)
      ensures Current() == Load(initial)
    {
      var s := Load(initial);
      questionText, options := s.questionText, s.options;
    }

    method HandleSetCorrect(index: nat)
      requires index < |options|
      modifies this
      ensures options == SetCorrect(old(options), index) && questionText == old(questionText)
    {
      options := SetCorrect(options, index);
    }

    method HandleImageUpload(index: nat, url: string)
      requires index < |options|
      modifies this
      ensures options == SetImage(old(options), index, url) && questionText == old(questionText)
      ensures old(AtMostOneCorrect(options)) ==> AtMostOneCorrect(options)
    {
      if AtMostOneCorrect(options) {
        EditsKeepAtMostOne(options, index, url);
      }
      options := options[index := options[index].(image := url)];
    }

    method AddOption()
      modifies this
      ensures options == AddedOption(old(options)) && questionText == old(questionText)
    {
      options := options + [PictureOption("", false)];
    }

    method HandleRemoveOption(index: nat) returns (refused: bool)
      requires index < |options|
      modifies this
      ensures refused <==> RemoveOption(old(options), index).Refused?
      ensures refused ==> options == old(options)
      ensures !refused ==> options == RemoveOption(old(options), index).options
      ensures questionText == old(questionText)
      ensures old(AtMostOneCorrect(options)) ==> AtMostOneCorrect(options)
    {
      if |options| <= 2 {
        return true;
      }
      if AtMostOneCorrect(options) {
        EditsKeepAtMostOne(options, index, "");
      }
      options := RemoveAt(options, index);
      refused := false;
    }

    method HandleSave() returns (p: Option<Payload>)
      ensures p == Save(Current())
    {
      p := Save(Current());
    }
  }
}
