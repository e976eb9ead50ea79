/** The respondent's Cloze board
    (`client/src/components/renderer/ClozeRenderer.jsx`): the passage split at
    its `[BLANK]` markers, one drop target `blank_i` per marker, a tray of
    available words (initially the question's options) and an object from
    blank ids to the word dropped there, which is the answer sent. */
module ClozeRendering {
  import opened Common
  import opened JsString
  import opened JsObject
  import opened QuestionModel
  import JsValues
  import Scoring

  /** The drop targets: `blank_0 .. blank_{k-1}` for the `k` markers, in
      passage order; `k` is one less than the number of passage parts. */
  function BlankIds(passage: string): (r: seq<string>)
    ensures |r| == |SplitAtMarkers(passage)| - 1 == CountMarkers(passage)
    ensures forall i :: 0 <= i < |r| ==> r[i] == Scoring.BlankKey(i) && StartsWith(r[i], "blank_")
    ensures NoDup(r)
  {
    SplitAtMarkersSpec(passage);
    var r := seq(|SplitAtMarkers(passage)| - 1, i requires 0 <= i => Scoring.BlankKey(i));
    forall i, j | 0 <= i < j < |r| ensures r[i] != r[j] {
      if r[i] == r[j] {
        Scoring.BlankKeyInjective(i, j);
      }
    }
    r
  }

  /** The two state fields: `availableOptions` and `filledBlanks`. */
  datatype ClozeState = ClozeState(available: seq<string>, filled: Obj<string>)

  /** `useState(question.options)` and `useState({})`. */
  function Initial(options: seq<string>): (s: ClozeState)
    ensures s.available == options && Keys(s.filled) == []
  {
    ClozeState(options, [])
  }

  /** The drop is acted on: a (truthy) target id starting with `blank_`. */
  predicate Targets(over: Option<string>) {
    over.Some? && over.value != "" && StartsWith(over.value, "blank_")
  }

  /** `handleDragEnd`, its state updates taken in program order: the word
      already in the target blank (if any, and non-empty) goes back to the
      tray, the blank the dragged word came from (the first key holding it)
      is cleared, the target blank receives the word, and every copy of the
      word leaves the tray. */
  function Drop(s: ClozeState, word: string, over: Option<string>): (r: ClozeState)
    ensures !Targets(over) ==> r == s
    ensures Targets(over) ==> Get(r.filled, over.value) == Some(word) && word !in r.available
    ensures Targets(over) ==> forall w :: w != word ==>
      (w in r.available <==> w in s.available || (Get(s.filled, over.value) == Some(w) && w != ""))
    ensures Targets(over) && KeyOf(s.filled, word).Some? && KeyOf(s.filled, word).value != over.value && KeyOf(s.filled, word).value != ""
      ==> Get(r.filled, KeyOf(s.filled, word).value).None?
    ensures Targets(over) ==> forall k :: k != over.value && (KeyOf(s.filled, word).None? || k != KeyOf(s.filled, word).value) ==>
      Get(r.filled, k) == Get(s.filled, k)
    ensures DistinctKeys(s.filled) ==> DistinctKeys(r.filled)
  {
    if !Targets(over) then s
    else
      var blankId := over.value;
      var sourceBlankId := KeyOf(s.filled, word);
      var previous := Get(s.filled, blankId);
      var returned := if previous.Some? && previous.value != "" then s.available + [previous.value] else s.available;
      var cleared := if sourceBlankId.Some? && sourceBlankId.value != "" then Delete(s.filled, sourceBlankId.value) else s.filled;
      ClozeState(Without(returned, word), Set(cleared, blankId, word))
  }

  /** The board is consistent with the question's options: every option is
      either in the tray or in exactly one blank, and no blank id is empty. */
  ghost predicate Consistent(s: ClozeState, options: seq<string>) {
    && multiset(s.available) + multiset(Values(s.filled)) == multiset(options)
    && DistinctKeys(s.filled)
    && "" !in Keys(s.filled)
  }

  /** The builder stores distinct, non-empty options. */
  predicate WellFormedOptions(options: seq<string>) {
    NoDup(options) && "" !in options
  }

  lemma {:induction false} NoDupCount(options: seq<string>, w: string)
    requires NoDup(options)
    ensures multiset(options)[w] <= 1
  {
    if options != [] {
      var rest := options[1..];
      assert options == [options[0]] + rest;
      assert NoDup(rest) by {
        forall i, j | 0 <= i < j < |rest| ensures rest[i] != rest[j] {
          assert rest[i] == options[i + 1] && rest[j] == options[j + 1];
        }
      }
      NoDupCount(rest, w);
      if options[0] == w {
        assert w !in rest by {
          forall i | 0 <= i < |rest| ensures rest[i] != w {
            assert rest[i] == options[i + 1];
          }
        }
      }
    }
  }

  /** Tray `a` and blanks `v` after a word `w` leaves the tray (once there)
      and replaces a word `x` that goes back. */
  lemma Exchange(a: multiset<string>, v: multiset<string>, w: string, x: string)
    requires a[w] == 1 && x in v && x != w
    ensures (a + multiset{x})[w := 0] + (v - multiset{x} + multiset{w}) == a + v
  {
    forall t ensures ((a + multiset{x})[w := 0] + (v - multiset{x} + multiset{w}))[t] == (a + v)[t] {
      if t != w && t != x {
        assert multiset{w}[t] == 0 && multiset{x}[t] == 0;
      }
    }
  }

  /** A word `w` leaves the tray `a` (where it occurs `a[w] <= 1` times) and
      joins the blanks `v`, from which it is taken `a[w] == 0` times before. */
  lemma Arrive(a: multiset<string>, v: multiset<string>, w: string)
    requires a[w] == 1
    ensures a[w := 0] + (v + multiset{w}) == a + v
  {
    forall t ensures (a[w := 0] + (v + multiset{w}))[t] == (a + v)[t] {
      if t != w {
        assert multiset{w}[t] == 0;
      }
    }
  }

  /** A word `w` moves between blanks: out of `v` and back in. */
  lemma Stay(a: multiset<string>, v: multiset<string>, w: string)
    requires a[w] == 0 && w in v
    ensures a[w := 0] + (v - multiset{w} + multiset{w}) == a + v
  {
    assert a[w := 0] == a;
    assert v - multiset{w} + multiset{w} == v;
  }

  /** A word `w` moves between blanks and replaces `x`, which goes back. */
  lemma StayExchange(a: multiset<string>, v: multiset<string>, w: string, x: string)
    requires a[w] == 0 && w in v && x in v - multiset{w} && x != w
    ensures (a + multiset{x})[w := 0] + (v - multiset{w} - multiset{x} + multiset{w}) == a + v
  {
    forall t ensures ((a + multiset{x})[w := 0] + (v - multiset{w} - multiset{x} + multiset{w}))[t] == (a + v)[t] {
      if t != w && t != x {
        assert multiset{w}[t] == 0 && multiset{x}[t] == 0;
      }
    }
  }

  /** A word taken from the tray into an empty blank. */
  lemma FromTrayToEmpty(s: ClozeState, options: seq<string>, word: string, b: string)
    requires Consistent(s, options) && multiset(s.available)[word] == 1
    requires Get(s.filled, b).None?
    ensures multiset(Without(s.available, word)) + multiset(Values(Set(s.filled, b, word))) == multiset(options)
  {
    SetValuesNew(s.filled, b, word);
    assert multiset(Values(Set(s.filled, b, word))) == multiset(Values(s.filled)) + multiset{word};
    Arrive(multiset(s.available), multiset(Values(s.filled)), word);
  }

  /** A word taken from the tray into a blank holding `x`, which goes back. */
  lemma FromTrayToFilled(s: ClozeState, options: seq<string>, word: string, b: string, x: string)
    requires Consistent(s, options) && multiset(s.available)[word] == 1
    requires Get(s.filled, b) == Some(x) && x != word
    ensures multiset(Without(s.available + [x], word)) + multiset(Values(Set(s.filled, b, word))) == multiset(options)
  {
    SetValuesExisting(s.filled, b, word, x);
    ValueIn(s.filled, b, Get(s.filled, b).value);
    var a := multiset(s.available);
    assert multiset(s.available + [x]) == a + multiset{x};
    assert multiset(Without(s.available + [x], word)) == (a + multiset{x})[word := 0];
    Exchange(a, multiset(Values(s.filled)), word, x);
  }

  /** A word moved onto the blank it already fills. */
  lemma OntoItsOwnBlank(s: ClozeState, options: seq<string>, word: string, b: string)
    requires Consistent(s, options) && multiset(s.available)[word] == 0
    requires Get(s.filled, b) == Some(word)
    ensures multiset(Without(s.available + [word], word)) + multiset(Values(Set(Delete(s.filled, b), b, word))) == multiset(options)
  {
    RefillValues(s.filled, b, word);
    var a := multiset(s.available);
    assert multiset(s.available + [word]) == a + multiset{word};
    ClearAdded(a, word);
  }

  lemma ClearAdded(a: multiset<string>, w: string)
    requires a[w] == 0
    ensures (a + multiset{w})[w := 0] == a
  {
  }

  /** Clearing a blank and writing its word back keeps the blanks' words. */
  lemma RefillValues(o: Obj<string>, b: string, word: string)
    requires DistinctKeys(o) && Get(o, b) == Some(word)
    ensures multiset(Values(Set(Delete(o, b), b, word))) == multiset(Values(o))
  {
    var v := multiset(Values(o));
    var cleared := Delete(o, b);
    assert multiset(Values(cleared)) == v - multiset{word} by {
      DeleteValues(o, b, word);
    }
    assert Values(Set(cleared, b, word)) == Values(cleared) + [word] by {
      SetValuesNew(cleared, b, word);
    }
    assert word in v by {
      ValueIn(o, b, word);
    }
    MinusPlus(v, word);
  }

  /** A word moved from blank `src` to a different, empty blank `b`. */
  lemma BetweenBlanksEmpty(s: ClozeState, options: seq<string>, word: string, src: string, b: string)
    requires Consistent(s, options) && multiset(s.available)[word] == 0
    requires Get(s.filled, src) == Some(word) && src != b && Get(s.filled, b).None?
    ensures multiset(Without(s.available, word)) + multiset(Values(Set(Delete(s.filled, src), b, word))) == multiset(options)
  {
    DeleteValues(s.filled, src, word);
    var cleared := Delete(s.filled, src);
    ValueIn(s.filled, src, Get(s.filled, src).value);
    SetValuesNew(cleared, b, word);
    assert multiset(Values(Set(cleared, b, word))) == multiset(Values(s.filled)) - multiset{word} + multiset{word};
    Stay(multiset(s.available), multiset(Values(s.filled)), word);
  }

  /** A word moved from blank `src` to a different blank `b` holding `x`,
      which goes back to the tray. */
  lemma BetweenBlanksFilled(s: ClozeState, options: seq<string>, word: string, src: string, b: string, x: string)
    requires Consistent(s, options) && multiset(s.available)[word] == 0
    requires Get(s.filled, src) == Some(word) && src != b && Get(s.filled, b) == Some(x)
    requires multiset(Values(s.filled))[word] <= 1
    ensures multiset(Without(s.available + [x], word)) + multiset(Values(Set(Delete(s.filled, src), b, word))) == multiset(options)
  {
    DeleteValues(s.filled, src, word);
    var cleared := Delete(s.filled, src);
    ValueIn(s.filled, src, Get(s.filled, src).value);
    assert Get(cleared, b) == Some(x);
    ValueIn(cleared, b, Get(cleared, b).value);
    var v := multiset(Values(s.filled));
    assert x in v - multiset{word};
    assert (v - multiset{word})[word] == 0;
    SetValuesExisting(cleared, b, word, x);
    var a := multiset(s.available);
    assert multiset(s.available + [x]) == a + multiset{x};
    assert multiset(Without(s.available + [x], word)) == (a + multiset{x})[word := 0];
    StayExchange(a, v, word, x);
  }

  /** With distinct non-empty options, dropping a word shown on the board (in
      the tray or in a blank) keeps the board consistent: the tray and the
      blanks together always hold exactly the options, so a word fills at
      most one blank. */
  lemma DropKeepsConsistent(s: ClozeState, options: seq<string>, word: string, over: Option<string>)
    requires WellFormedOptions(options) && Consistent(s, options)
    requires word in s.available || word in Values(s.filled)
    ensures Consistent(Drop(s, word, over), options)
    ensures forall w :: multiset(Values(Drop(s, word, over).filled))[w] <= 1
  {
    var r := Drop(s, word, over);
    if Targets(over) {
      var b := over.value;
      assert b != "" by {
        assert |b| >= 6;
      }
      NoDupCount(options, word);
      if word in s.available {
        DropFromTray(s, options, word, b);
      } else {
        DropFromBlank(s, options, word, b);
      }
      assert "" !in Keys(r.filled);
    }
    forall w ensures multiset(Values(r.filled))[w] <= 1 {
      NoDupCount(options, w);
    }
  }

  /** A blank of a consistent board holds a non-empty word. */
  lemma FilledNotEmpty(s: ClozeState, options: seq<string>, b: string)
    requires WellFormedOptions(options) && Consistent(s, options) && Get(s.filled, b).Some?
    ensures Get(s.filled, b).value != "" && Get(s.filled, b).value in multiset(Values(s.filled))
  {
    var x := Get(s.filled, b).value;
    ValueIn(s.filled, b, x);
    SumMember(multiset(s.available), multiset(Values(s.filled)), multiset(options), x);
    assert x in options;
  }

  lemma SumMember(a: multiset<string>, v: multiset<string>, m: multiset<string>, x: string)
    requires a + v == m && x in v
    ensures x in m
  {
    assert m[x] == a[x] + v[x];
  }

  /** Dropping a word from the tray keeps the options where they were. */
  lemma DropFromTray(s: ClozeState, options: seq<string>, word: string, b: string)
    requires WellFormedOptions(options) && Consistent(s, options) && Targets(Some(b))
    requires word in s.available && multiset(options)[word] <= 1
    ensures var r := Drop(s, word, Some(b));
      multiset(r.available) + multiset(Values(r.filled)) == multiset(options)
  {
    assert multiset(Values(s.filled))[word] == 0;
    assert KeyOf(s.filled, word).None?;
    match Get(s.filled, b)
    case None => FromTrayToEmpty(s, options, word, b);
    case Some(x) =>
      FilledNotEmpty(s, options, b);
      FromTrayToFilled(s, options, word, b, x);
  }

  /** Dropping a word from a blank keeps the options where they were. */
  lemma DropFromBlank(s: ClozeState, options: seq<string>, word: string, b: string)
    requires WellFormedOptions(options) && Consistent(s, options) && Targets(Some(b))
    requires word !in s.available && word in Values(s.filled) && multiset(options)[word] <= 1
    ensures var r := Drop(s, word, Some(b));
      multiset(r.available) + multiset(Values(r.filled)) == multiset(options)
  {
    var src := KeyOf(s.filled, word).value;
    KeyOfGet(s.filled, word);
    assert src in Keys(s.filled);
    assert src != "";
    if src == b {
      OntoItsOwnBlank(s, options, word, b);
    } else {
      match Get(s.filled, b)
      case None => BetweenBlanksEmpty(s, options, word, src, b);
      case Some(x) =>
        FilledNotEmpty(s, options, b);
        assert multiset(Values(s.filled))[word] <= multiset(options)[word];
        BetweenBlanksFilled(s, options, word, src, b, x);
    }
  }

  /** The server reads the blanks the renderer fills: blank `i` is credited
      exactly when `blank_i` holds the `i`-th option. */
  lemma ScoringReadsBlanks(filled: Obj<string>, options: seq<string>, i: nat)
    requires i < |options|
    ensures Scoring.BlankEarns(JsValues.StringObject(filled), options, i) <==> Get(filled, Scoring.BlankKey(i)) == Some(options[i])
  {
  }

  /** The component: its two state fields and the drop handler; the answer
      it reports is `filledBlanks` as a JSON object. */
  class ClozeRenderer {
    var availableOptions: seq<string>
    var filledBlanks: Obj<string>

    function State(): ClozeState
      reads this
    {
      ClozeState(availableOptions, filledBlanks)
    }

    /** `onAnswerChange(question._id, filledBlanks)`. */
    function Answer(): (r: JsValues.Json)
      reads this
      ensures r.JObj? && JsValues.Keys(r) == Keys(filledBlanks)
    {
      JsValues.StringObject(filledBlanks)
    }

    constructor(q: Question)
      ensures State() == Initial(q.options)
      ensures Consistent(State(), q.options)
    {
      availableOptions := q.options;
      filledBlanks := [];
    }

    /** `handleDragEnd` for dragged word `word` and drop target `over`. */
    method HandleDragEnd(word: string, over: Option<string>)
      modifies this
      ensures State() == Drop(old(State()), word, over)
    {
      if over.None? || over.value == "" {
        return;
      }
      var blankId := over.value;
      var sourceBlankId := KeyOf(filledBlanks, word);
      if StartsWith(blankId, "blank_") {
        var newBlanks := filledBlanks;
        var previous := Get(filledBlanks, blankId);
        if previous.Some? && previous.value != "" {
          availableOptions := availableOptions + [previous.value];
        }
        if sourceBlankId.Some? && sourceBlankId.value != "" {
          newBlanks := Delete(newBlanks, sourceBlankId.value);
        }
        newBlanks := Set(newBlanks, blankId, word);
        filledBlanks := newBlanks;
        availableOptions := Without(availableOptions, word);
      }
    }
  }
}
