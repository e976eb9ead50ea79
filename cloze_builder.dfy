/** The author's Cloze editor (`client/src/components/builder/ClozeBuilder.jsx`):
    the passage is edited as text, a selected word or phrase is turned into a
    `[BLANK]` marker and its text becomes an answer option, inserted at the
    position of the new blank among the blanks of the passage. */
module ClozeBuilding {
  import opened Common
  import opened JsString
  import opened QuestionModel

  /** A non-empty browser selection inside the passage, as the offsets
      `[start, end)` of the selected text in the passage text. */
  datatype Selection = Selection(start: nat, end: nat)

  /** What "Make Blank" does: nothing for a missing or collapsed selection
      (an alert), nothing for a selection that is whitespace only, nothing
      for text that already is an option (an alert), or a new passage and
      option list. */
  datatype BlankOutcome = NoSelection | EmptySelection | DuplicateOption | Made(passage: string, options: seq<string>)

  /** `xs.splice(k, 0, x)`: an index past the end appends. */
  function Insert(xs: seq<string>, k: nat, x: string): (r: seq<string>)
    ensures |r| == |xs| + 1
    ensures k <= |xs| ==> r[..k] == xs[..k] && r[k] == x && r[k + 1..] == xs[k..]
    ensures k > |xs| ==> r == xs + [x]
    ensures multiset(r) == multiset(xs) + multiset{x}
  {
    var j := if k <= |xs| then k else |xs|;
    assert xs == xs[..j] + xs[j..];
    xs[..j] + [x] + xs[j..]
  }

  /** The number of blanks before the selection: the markers in the passage
      text up to its start. */
  function BlankIndex(passage: string, sel: Selection): nat
    requires sel.start <= |passage|
  {
    CountMarkers(passage[..sel.start])
  }

  /** `handleMakeBlank`: the selected text, trimmed, becomes an option
      unless it is blank or already an option; the selection is replaced by
      one marker and the option is inserted at the blank's index. */
  function MakeBlank(passage: string, options: seq<string>, sel: Option<Selection>): (r: BlankOutcome)
    requires sel.Some? ==> sel.value.start <= sel.value.end <= |passage|
    ensures r == NoSelection <==> sel.None? || sel.value.start == sel.value.end
    ensures r == EmptySelection <==> sel.Some? && sel.value.start < sel.value.end && IsBlank(passage[sel.value.start..sel.value.end])
    ensures r == DuplicateOption <==> sel.Some? && sel.value.start < sel.value.end && !IsBlank(passage[sel.value.start..sel.value.end])
                                      && Trim(passage[sel.value.start..sel.value.end]) in options
    ensures r.Made? ==> Trim(passage[sel.value.start..sel.value.end]) !in options && Trim(passage[sel.value.start..sel.value.end]) != ""
    ensures r.Made? ==> multiset(r.options) == multiset(options) + multiset{Trim(passage[sel.value.start..sel.value.end])}
    ensures r.Made? ==> |r.passage| == |passage| - (sel.value.end - sel.value.start) + |Marker|
  {
    if sel.None? || sel.value.start == sel.value.end then NoSelection
    else
      var selectedText := Trim(passage[sel.value.start..sel.value.end]);
      if selectedText == "" then EmptySelection
      else if selectedText in options then DuplicateOption
      else
        var blankIndex := BlankIndex(passage, sel.value);
        Made(passage[..sel.value.start] + Marker + passage[sel.value.end..], Insert(options, blankIndex, selectedText))
  }

  /** A selection that neither contains a marker nor cuts one: the markers
      of the passage are those before it and those after it. */
  predicate CutsNoBlank(passage: string, sel: Selection)
    requires sel.start <= sel.end <= |passage|
  {
    CountMarkers(passage) == CountMarkers(passage[..sel.start]) + CountMarkers(passage[sel.end..])
  }

  /** Making a blank keeps the options free of duplicates. */
  lemma MakeBlankKeepsNoDup(passage: string, options: seq<string>, sel: Option<Selection>)
    requires sel.Some? ==> sel.value.start <= sel.value.end <= |passage|
    requires NoDup(options) && MakeBlank(passage, options, sel).Made?
    ensures NoDup(MakeBlank(passage, options, sel).options)
  {
    var s := sel.value;
    var t := Trim(passage[s.start..s.end]);
    assert MakeBlank(passage, options, sel).options == Insert(options, BlankIndex(passage, s), t);
    InsertKeepsNoDup(options, BlankIndex(passage, s), t);
  }

  /** Inserting a text that is not among the distinct `xs` keeps them distinct. */
  lemma InsertKeepsNoDup(xs: seq<string>, k: nat, x: string)
    requires NoDup(xs) && x !in xs
    ensures NoDup(Insert(xs, k, x))
  {
    var r := Insert(xs, k, x);
    var j := if k <= |xs| then k else |xs|;
    assert r == xs[..j] + [x] + xs[j..];
    forall a, b | 0 <= a < b < |r| ensures r[a] != r[b] {
      if a < j && b < j {
      } else if a < j && b == j {
        assert r[a] == xs[a];
      } else if a < j {
        assert r[a] == xs[a] && r[b] == xs[b - 1];
      } else if a == j {
        assert r[b] == xs[b - 1];
      } else {
        assert r[a] == xs[a - 1] && r[b] == xs[b - 1];
      }
    }
  }

  /** Blanks and options stay aligned: when the passage had one marker per
      option and the selection touches no marker, the passage still has one
      marker per option; the new marker is the blank with index `k` (there are `k`
      markers before it), option `k` is the selected text, the options before
      it keep their index and those after it move up by one, exactly as the
      markers after the selection do. */
  lemma MakeBlankAligned(passage: string, options: seq<string>, sel: Selection)
    requires sel.start <= sel.end <= |passage| && CutsNoBlank(passage, sel)
    requires CountMarkers(passage) == |options|
    requires MakeBlank(passage, options, Some(sel)).Made?
    ensures var r := MakeBlank(passage, options, Some(sel));
      var k := BlankIndex(passage, sel);
      && CountMarkers(r.passage) == |r.options|
      && k <= |options|
      && r.passage[..sel.start] == passage[..sel.start]
      && CountMarkers(r.passage[..sel.start]) == k
      && r.passage[sel.start..sel.start + |Marker|] == Marker
      && r.passage[sel.start + |Marker|..] == passage[sel.end..]
      && r.options[..k] == options[..k]
      && r.options[k] == Trim(passage[sel.start..sel.end])
      && r.options[k + 1..] == options[k..]
  {
    MadeShape(passage, options, sel);
    AlignedParts(passage[..sel.start], passage[sel.end..], options, Trim(passage[sel.start..sel.end]));
  }

  /** The editor's alignment, one marker per option and no option twice,
      survives a blank made from a selection that touches no marker. */
  lemma MakeBlankKeepsAligned(passage: string, options: seq<string>, sel: Selection)
    requires sel.start <= sel.end <= |passage| && CutsNoBlank(passage, sel)
    requires CountMarkers(passage) == |options| && NoDup(options)
    requires MakeBlank(passage, options, Some(sel)).Made?
    ensures CountMarkers(MakeBlank(passage, options, Some(sel)).passage) == |MakeBlank(passage, options, Some(sel)).options|
    ensures NoDup(MakeBlank(passage, options, Some(sel)).options)
  {
    MakeBlankAligned(passage, options, sel);
    MakeBlankKeepsNoDup(passage, options, Some(sel));
  }

  /** The alignment step of the editor's "Make Blank", for any outcome. */
  lemma MakeBlankStep(passage: string, options: seq<string>, sel: Option<Selection>)
    requires sel.Some? ==> sel.value.start <= sel.value.end <= |passage|
    ensures var r := MakeBlank(passage, options, sel);
      r.Made? && CountMarkers(passage) == |options| && NoDup(options) && CutsNoBlank(passage, sel.value) ==>
      CountMarkers(r.passage) == |r.options| && NoDup(r.options)
  {
    var r := MakeBlank(passage, options, sel);
    if r.Made? && CountMarkers(passage) == |options| && NoDup(options) && CutsNoBlank(passage, sel.value) {
      MakeBlankKeepsAligned(passage, options, sel.value);
    }
  }

  /** The passage and options "Make Blank" produces. */
  lemma MadeShape(passage: string, options: seq<string>, sel: Selection)
    requires sel.start <= sel.end <= |passage| && MakeBlank(passage, options, Some(sel)).Made?
    ensures MakeBlank(passage, options, Some(sel)) ==
      Made(passage[..sel.start] + Marker + passage[sel.end..], Insert(options, BlankIndex(passage, sel), Trim(passage[sel.start..sel.end])))
  {
  }

  /** A marker put between `a` and `b`, with option `t` inserted at the
      marker's index, when `a` and `b` hold one marker per option. */
  lemma AlignedParts(a: string, b: string, options: seq<string>, t: string)
    requires CountMarkers(a) + CountMarkers(b) == |options|
    ensures var p, r, k := a + Marker + b, Insert(options, CountMarkers(a), t), CountMarkers(a);
      && CountMarkers(p) == |r|
      && k <= |options|
      && p[..|a|] == a
      && p[|a|..|a| + |Marker|] == Marker
      && p[|a| + |Marker|..] == b
      && r[..k] == options[..k]
      && r[k] == t
      && r[k + 1..] == options[k..]
  {
    CountAroundMarker(a, b);
    var p := a + Marker + b;
    assert p[..|a|] == a;
    assert p[|a|..|a| + |Marker|] == Marker;
    assert p[|a| + |Marker|..] == b;
  }

  /** Why the selection must touch no marker: a selection over (part of) an
      existing blank deletes it, yet its option stays, so the options
      outnumber the blanks. */
  lemma SelectionOverBlankMisaligns(passage: string, options: seq<string>, sel: Selection)
    requires sel.start <= sel.end <= |passage|
    requires CountMarkers(passage[..sel.start]) + CountMarkers(passage[sel.end..]) < CountMarkers(passage) == |options|
    requires MakeBlank(passage, options, Some(sel)).Made?
    ensures CountMarkers(MakeBlank(passage, options, Some(sel)).passage) < |MakeBlank(passage, options, Some(sel)).options|
  {
    CountAroundMarker(passage[..sel.start], passage[sel.end..]);
  }

  /** `handleSave`: refused (an alert) unless the passage contains a marker
      and there is at least one option; otherwise the body sent to the
      server, with the uploaded image's URL (`''` when there is none). */
  function Save(passage: string, options: seq<string>, imageUrl: string): (r: Option<QuestionInput>)
    ensures r.Some? <==> CountMarkers(passage) > 0 && |options| > 0
  {
    IncludesMarker(passage);
    if !Includes(passage, Marker) || |options| == 0 then None
    else Some(QuestionInput(Some("Cloze"), None, Some(imageUrl), None, None, Some(passage), Some(options), None, None))
  }

  /** A saved Cloze is accepted by the question model as a Cloze question
      with this passage and these options as its answer key; on an aligned
      editor the stored passage has one blank per stored option. */
  lemma SaveStored(id: string, passage: string, options: seq<string>, imageUrl: string)
    requires Save(passage, options, imageUrl).Some?
    ensures var q := CreateQuestion(id, Save(passage, options, imageUrl).value);
      && q.Some? && q.value.kind == Cloze && q.value.passage == Some(passage)
      && q.value.options == options && q.value.image == Some(imageUrl)
    ensures CountMarkers(passage) == |options| ==> |SplitAtMarkers(passage)| == |options| + 1
  {
    ParseTypeName(Cloze, Cloze);
    SplitAtMarkersSpec(passage);
  }

  /** The text the passage starts with, written in short pieces so that the
      absence of `[` is checked piece by piece. */
  const Placeholder: string := "Your " + "sentence " + "with " + "words " + "to be " + "blanked " + "out " + "goes " + "here."

  /** The editor: the passage text and the option list. */
  class ClozeBuilder {
    var passage: string
    var options: seq<string>

    /** One marker per option, and no option twice. */
    predicate Aligned()
      reads this
    {
      CountMarkers(passage) == |options| && NoDup(options)
    }

    /** Mounting the editor: the placeholder sentence and no options. */
    constructor()
      ensures passage == Placeholder && options == [] && Aligned()
    {
      passage := Placeholder;
      options := [];
      NoBracketNoMarker(Placeholder);
    }

    /** Typing in the passage. */
    method EditPassage(text: string)
      modifies this
      ensures passage == text && options == old(options)
    {
      passage := text;
    }

    method HandleMakeBlank(sel: Option<Selection>) returns (outcome: BlankOutcome)
      requires sel.Some? ==> sel.value.start <= sel.value.end <= |passage|
      modifies this
      ensures outcome == MakeBlank(old(passage), old(options), sel)
      ensures outcome.Made? ==> passage == outcome.passage && options == outcome.options
      ensures !outcome.Made? ==> passage == old(passage) && options == old(options)
      ensures old(Aligned()) && outcome.Made? && CutsNoBlank(old(passage), sel.value) ==> Aligned()
    {
      var p, o := passage, options;
      outcome := MakeBlank(p, o, sel);
      MakeBlankStep(p, o, sel);
      if outcome.Made? {
        passage, options := outcome.passage, outcome.options;
      }
    }

    method HandleSave(imageUrl: string) returns (body: Option<QuestionInput>)
      ensures body == Save(passage, options, imageUrl)
      ensures body.Some? ==> body.value.options == Some(options) && body.value.passage == Some(passage)
    {
      if !Includes(passage, Marker) || |options| == 0 {
        body := None;
      } else {
        body := Some(QuestionInput(Some("Cloze"), None, Some(imageUrl), None, None, Some(passage), Some(options), None, None));
      }
    }
  }
}
