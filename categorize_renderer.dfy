/** The respondent's Categorize board
    (`client/src/components/renderer/CategorizeRenderer.jsx`): an object from
    bucket names to the item texts placed in them, with `unassigned` first and
    then one bucket per category. Dropping an item on a bucket moves its text
    there; the board itself is the answer sent to the server. */
module CategorizeRendering {
  import opened Common
  import opened JsObject
  import opened QuestionModel
  import JsValues
  import Scoring

  /** The `itemLists` state. */
  type Lists = Obj<seq<string>>

  const Unassigned: string := "unassigned"

  /** `question.items.map(item => item.text)`, for the items that have a text. */
  function ItemTexts(items: seq<Item>): (r: seq<string>)
    ensures |r| <= |items|
    ensures forall t :: t in r <==> exists i :: 0 <= i < |items| && items[i].text == Some(t)
  {
    if items == [] then []
    else
      var rest := ItemTexts(items[1..]);
      assert forall i :: 0 < i < |items| ==> items[i] == items[1..][i - 1];
      (if items[0].text.Some? then [items[0].text.value] else []) + rest
  }

  /** `{...lists, ...Object.fromEntries(categories.map(cat => [cat, []]))}`:
      every category gets an empty bucket, a key already present keeping its
      place and new keys going last in category order. */
  function AddBuckets(lists: Lists, categories: seq<string>): Lists
    decreases |categories|
  {
    if categories == [] then lists
    else AddBuckets(Set(lists, categories[0], []), categories[1..])
  }

  /** Every category gets an empty bucket, a key already present keeps its
      place and no key appears twice. */
  lemma AddBucketsSpec(lists: Lists, categories: seq<string>)
    ensures var r := AddBuckets(lists, categories);
      && (forall k :: k in Keys(r) <==> k in Keys(lists) || k in categories)
      && (forall c :: c in categories ==> Get(r, c) == Some([]))
      && (forall k :: k !in categories ==> Get(r, k) == Get(lists, k))
      && (lists != [] ==> r != [] && r[0].0 == lists[0].0)
      && (DistinctKeys(lists) ==> DistinctKeys(r))
  {
    AddBucketsKeys(lists, categories);
    AddBucketsEmpty(lists, categories);
    AddBucketsOthers(lists, categories);
    AddBucketsHead(lists, categories);
    AddBucketsDistinct(lists, categories);
  }

  lemma {:induction false} AddBucketsKeys(lists: Lists, categories: seq<string>)
    ensures forall k :: k in Keys(AddBuckets(lists, categories)) <==> k in Keys(lists) || k in categories
    decreases |categories|
  {
    if categories != [] {
      AddBucketsKeys(Set(lists, categories[0], []), categories[1..]);
      assert forall c :: c in categories ==> c == categories[0] || c in categories[1..];
    }
  }

  lemma {:induction false} AddBucketsOthers(lists: Lists, categories: seq<string>)
    ensures forall k :: k !in categories ==> Get(AddBuckets(lists, categories), k) == Get(lists, k)
    decreases |categories|
  {
    if categories != [] {
      AddBucketsOthers(Set(lists, categories[0], []), categories[1..]);
    }
  }

  lemma {:induction false} AddBucketsEmpty(lists: Lists, categories: seq<string>)
    ensures forall c :: c in categories ==> Get(AddBuckets(lists, categories), c) == Some([])
    decreases |categories|
  {
    if categories != [] {
      var next := Set(lists, categories[0], []);
      AddBucketsEmpty(next, categories[1..]);
      AddBucketsOthers(next, categories[1..]);
      assert forall c :: c in categories ==> c == categories[0] || c in categories[1..];
    }
  }

  lemma {:induction false} AddBucketsHead(lists: Lists, categories: seq<string>)
    ensures lists != [] ==> AddBuckets(lists, categories) != [] && AddBuckets(lists, categories)[0].0 == lists[0].0
    decreases |categories|
  {
    if categories != [] {
      AddBucketsHead(Set(lists, categories[0], []), categories[1..]);
    }
  }

  lemma {:induction false} AddBucketsDistinct(lists: Lists, categories: seq<string>)
    ensures DistinctKeys(lists) ==> DistinctKeys(AddBuckets(lists, categories))
    decreases |categories|
  {
    if categories != [] {
      AddBucketsDistinct(Set(lists, categories[0], []), categories[1..]);
    }
  }

  /** The initial board: `unassigned` holds every item text in item order,
      first among the keys, and each category has an empty bucket. A category
      named `unassigned` empties that bucket. */
  function InitialLists(q: Question): (r: Lists)
    ensures |r| > 0 && Keys(r)[0] == Unassigned
    ensures forall k :: k in Keys(r) <==> k == Unassigned || k in q.categories
    ensures forall c :: c in q.categories ==> Get(r, c) == Some([])
    ensures Unassigned !in q.categories ==> Get(r, Unassigned) == Some(ItemTexts(q.items))
    ensures DistinctKeys(r)
  {
    var start: Lists := [(Unassigned, ItemTexts(q.items))];
    assert Keys(start) == [Unassigned] && DistinctKeys(start[1..]);
    AddBucketsSpec(start, q.categories);
    AddBuckets(start, q.categories)
  }

  /** The first index, from `from` on, of a bucket holding `text`. */
  function SourceFrom(lists: Lists, text: string, from: nat): (r: Option<nat>)
    requires from <= |lists|
    ensures r.Some? ==> from <= r.value < |lists| && text in lists[r.value].1
    ensures r.Some? ==> forall j :: from <= j < r.value ==> text !in lists[j].1
    ensures r.None? ==> forall j :: from <= j < |lists| ==> text !in lists[j].1
    decreases |lists| - from
  {
    if from == |lists| then None
    else if text in lists[from].1 then Some(from)
    else SourceFrom(lists, text, from + 1)
  }

  /** `originalListKey`: the first key, in key order, whose bucket holds the
      dragged text; `None` when no bucket holds it. */
  function SourceBucket(lists: Lists, text: string): (r: Option<string>)
    ensures r.Some? ==> exists i :: (0 <= i < |lists| && lists[i].0 == r.value && text in lists[i].1
      && forall j :: 0 <= j < i ==> text !in lists[j].1)
    ensures r.None? <==> forall i :: 0 <= i < |lists| ==> text !in lists[i].1
    ensures r.Some? ==> r.value in Keys(lists)
  {
    match SourceFrom(lists, text, 0)
    case None => None
    case Some(i) => Some(lists[i].0)
  }

  /** What a drop does to the board: nothing, a move, or an exception in the
      state updater (a target that is not a bucket: spreading `undefined`). */
  datatype Drop = Ignored | Moved(lists: Lists) | Crashed

  /** The drop is acted on only when some bucket holds the text, that bucket's
      key and the target id are non-empty (truthy), and they differ. */
  predicate Acts(lists: Lists, active: string, over: Option<string>) {
    var source := SourceBucket(lists, active);
    source.Some? && source.value != "" && over.Some? && over.value != "" && source.value != over.value
  }

  /** `handleDragEnd` for dragged id `active` and drop target `over`: the text
      is removed (every copy) from its source bucket and appended once to the
      target bucket; an unknown target makes the updater throw. */
  function DragEnd(lists: Lists, active: string, over: Option<string>): (r: Drop)
    ensures r.Ignored? <==> !Acts(lists, active, over)
    ensures r.Crashed? <==> Acts(lists, active, over) && over.value !in Keys(lists)
    ensures r.Moved? ==> Keys(r.lists) == Keys(lists)
    ensures r.Moved? && DistinctKeys(lists) ==> DistinctKeys(r.lists)
    ensures r.Moved? ==> var source := SourceBucket(lists, active).value;
      && Get(r.lists, source) == Some(Without(Get(lists, source).value, active))
      && Get(r.lists, over.value) == Some(Get(lists, over.value).value + [active])
      && forall k :: k != source && k != over.value ==> Get(r.lists, k) == Get(lists, k)
  {
    if !Acts(lists, active, over) then Ignored
    else
      var source := SourceBucket(lists, active).value;
      var updated := Set(lists, source, Without(Get(lists, source).value, active));
      match Get(updated, over.value)
      case None => Crashed
      case Some(target) => Moved(Set(updated, over.value, target + [active]))
  }

  /** All item texts on the board, bucket after bucket. */
  function AllTexts(lists: Lists): seq<string> {
    if lists == [] then [] else lists[0].1 + AllTexts(lists[1..])
  }

  /** No text sits on the board twice. */
  ghost predicate DistinctTexts(lists: Lists) {
    forall t :: multiset(AllTexts(lists))[t] <= 1
  }

  /** Writing a bucket swaps its texts for the new ones among all texts. */
  lemma {:induction false} SetAllTexts(o: Lists, k: string, v: seq<string>)
    requires Get(o, k).Some?
    ensures multiset(Get(o, k).value) <= multiset(AllTexts(o))
    ensures multiset(AllTexts(Set(o, k, v))) == multiset(AllTexts(o)) - multiset(Get(o, k).value) + multiset(v)
  {
    var h, rest := multiset(o[0].1), multiset(AllTexts(o[1..]));
    assert multiset(AllTexts(o)) == h + rest;
    if o[0].0 != k {
      SetAllTexts(o[1..], k, v);
      assert Set(o, k, v) == [o[0]] + Set(o[1..], k, v);
      assert AllTexts(Set(o, k, v)) == o[0].1 + AllTexts(Set(o[1..], k, v));
      ConsSwap(h, rest, multiset(Get(o, k).value), multiset(v));
    } else {
      assert AllTexts(Set(o, k, v)) == v + AllTexts(o[1..]);
      HeadSwap(h, rest, multiset(v));
    }
  }

  lemma ConsSwap(h: multiset<string>, r: multiset<string>, g: multiset<string>, v: multiset<string>)
    requires g <= r
    ensures g <= h + r
    ensures h + (r - g + v) == h + r - g + v
  {
  }

  lemma HeadSwap(h: multiset<string>, r: multiset<string>, v: multiset<string>)
    ensures h <= h + r
    ensures v + r == h + r - h + v
  {
  }

  /** Dropping a text held once from its bucket removes that one copy. */
  lemma RemoveText(lists: Lists, source: string, active: string)
    requires DistinctTexts(lists) && Get(lists, source).Some? && active in Get(lists, source).value
    ensures multiset(AllTexts(Set(lists, source, Without(Get(lists, source).value, active))))
      == multiset(AllTexts(lists)) - multiset{active}
    ensures active in multiset(AllTexts(lists))
  {
    var from := Get(lists, source).value;
    SetAllTexts(lists, source, Without(from, active));
    assert multiset(from)[active] <= multiset(AllTexts(lists))[active] <= 1;
    SwapOut(multiset(AllTexts(lists)), multiset(from), active);
  }

  /** Replacing a part `a` of `m` by `a` without its one copy of `x` drops
      that copy from `m`. */
  lemma SwapOut(m: multiset<string>, a: multiset<string>, x: string)
    requires a <= m && a[x] == 1
    ensures m - a + a[x := 0] == m - multiset{x}
  {
    forall t ensures (m - a + a[x := 0])[t] == (m - multiset{x})[t] {
      if t == x {
      } else {
        assert multiset{x}[t] == 0;
      }
    }
  }

  /** Appending a text to a bucket adds one copy. */
  lemma AppendText(lists: Lists, target: string, active: string)
    requires Get(lists, target).Some?
    ensures multiset(AllTexts(Set(lists, target, Get(lists, target).value + [active])))
      == multiset(AllTexts(lists)) + multiset{active}
  {
    var to := Get(lists, target).value;
    SetAllTexts(lists, target, to + [active]);
    assert multiset(to + [active]) == multiset(to) + multiset{active};
  }

  /** With distinct texts, a move keeps exactly the same texts on the board,
      so they stay distinct. */
  lemma MovePreservesTexts(lists: Lists, active: string, over: Option<string>)
    requires DistinctKeys(lists) && DistinctTexts(lists) && DragEnd(lists, active, over).Moved?
    ensures multiset(AllTexts(DragEnd(lists, active, over).lists)) == multiset(AllTexts(lists))
    ensures DistinctTexts(DragEnd(lists, active, over).lists)
  {
    var i := SourceFrom(lists, active, 0).value;
    var source := lists[i].0;
    assert SourceBucket(lists, active) == Some(source);
    GetAt(lists, i);
    MovedLists(lists, active, over);
    MoveTexts(lists, source, over.value, active);
  }

  /** The board after a move: the source bucket written first, then the
      target bucket. */
  lemma MovedLists(lists: Lists, active: string, over: Option<string>)
    requires DragEnd(lists, active, over).Moved?
    ensures var source := SourceBucket(lists, active).value;
      var updated := Set(lists, source, Without(Get(lists, source).value, active));
      over.Some? && Get(updated, over.value).Some? &&
      DragEnd(lists, active, over).lists == Set(updated, over.value, Get(updated, over.value).value + [active])
  {
  }

  /** Taking the one copy of a text out of its bucket and appending it to
      another bucket keeps the board's texts. */
  lemma MoveTexts(lists: Lists, source: string, target: string, active: string)
    requires DistinctTexts(lists) && source != target
    requires Get(lists, source).Some? && active in Get(lists, source).value
    requires Get(Set(lists, source, Without(Get(lists, source).value, active)), target).Some?
    ensures var updated := Set(lists, source, Without(Get(lists, source).value, active));
      multiset(AllTexts(Set(updated, target, Get(updated, target).value + [active]))) == multiset(AllTexts(lists))
  {
    var updated := Set(lists, source, Without(Get(lists, source).value, active));
    RemoveText(lists, source, active);
    AppendText(updated, target, active);
    MinusPlus(multiset(AllTexts(lists)), active);
  }

  /** When every bucket but `k` is empty, the board's texts are those of `k`. */
  lemma {:induction false} OnlyBucket(o: Lists, k: string)
    requires DistinctKeys(o) && Get(o, k).Some?
    requires forall k' :: k' != k && Get(o, k').Some? ==> Get(o, k').value == []
    ensures AllTexts(o) == Get(o, k).value
  {
    assert o[0].0 !in Keys(o[1..]) && DistinctKeys(o[1..]);
    if o[0].0 == k {
      TailEmpty(o, k);
      OthersEmpty(o[1..], k);
    } else {
      assert Get(o, o[0].0) == Some(o[0].1);
      TailEmpty(o, k);
      OnlyBucket(o[1..], k);
    }
  }

  /** The rest of a well-formed object inherits "every bucket but `k` is empty". */
  lemma TailEmpty(o: Lists, k: string)
    requires o != [] && DistinctKeys(o)
    requires forall k' :: k' != k && Get(o, k').Some? ==> Get(o, k').value == []
    ensures forall k' :: k' != k && Get(o[1..], k').Some? ==> Get(o[1..], k').value == []
  {
    assert o[0].0 !in Keys(o[1..]);
    forall k' | k' != k && Get(o[1..], k').Some? ensures Get(o[1..], k').value == [] {
      assert k' in Keys(o[1..]);
      assert k' != o[0].0;
      assert Get(o, k') == Get(o[1..], k');
    }
  }

  lemma {:induction false} OthersEmpty(o: Lists, k: string)
    requires DistinctKeys(o) && k !in Keys(o)
    requires forall k' :: k' != k && Get(o, k').Some? ==> Get(o, k').value == []
    ensures AllTexts(o) == []
  {
    if o != [] {
      assert Get(o, o[0].0) == Some(o[0].1);
      assert Keys(o) == [o[0].0] + Keys(o[1..]);
      assert DistinctKeys(o[1..]);
      TailEmpty(o, k);
      OthersEmpty(o[1..], k);
    }
  }

  /** The initial board holds exactly the item texts. */
  lemma InitialHoldsItems(q: Question)
    requires Unassigned !in q.categories
    ensures multiset(AllTexts(InitialLists(q))) == multiset(ItemTexts(q.items))
  {
    var r := InitialLists(q);
    forall k' | k' != Unassigned && Get(r, k').Some? ensures Get(r, k').value == [] {
      assert k' in Keys(r);
    }
    OnlyBucket(r, Unassigned);
  }

  /** The server reads the board the renderer shows: the bucket the scoring
      finds for a text is the renderer's source bucket for it. */
  lemma ScoringFindsSource(lists: Lists, text: string)
    requires DistinctKeys(lists)
    ensures Scoring.SubmittedCategory(JsValues.ListObject(lists), Some(text)) == SourceBucket(lists, text)
  {
    var answer := JsValues.ListObject(lists);
    var keys := JsValues.Keys(answer);
    assert keys == Keys(lists);
    forall j | 0 <= j < |keys| ensures Scoring.InBucket(answer, keys[j], Some(text)) <==> text in lists[j].1 {
      GetAt(lists, j);
    }
    match SourceFrom(lists, text, 0)
    case None =>
    case Some(i) =>
      Scoring.SubmittedCategoryFirst(answer, Some(text), i);
  }

  /** The component: its `itemLists` state and the drop handler; the answer
      it reports is the board as a JSON object. */
  class CategorizeRenderer {
    var itemLists: Lists

    /** Every bucket key occurs once. */
    predicate Valid()
      reads this
    {
      DistinctKeys(itemLists)
    }

    /** `onAnswerChange(question._id, itemLists)`. */
    function Answer(): (r: JsValues.Json)
      reads this
      ensures r.JObj? && JsValues.Keys(r) == Keys(itemLists)
    {
      JsValues.ListObject(itemLists)
    }

    constructor(q: Question)
      ensures itemLists == InitialLists(q) && Valid()
    {
      itemLists := InitialLists(q);
    }

    /** `handleDragEnd`; `crashed` reports an exception in the updater, which
      leaves the state as it was. */
    method HandleDragEnd(active: string, over: Option<string>) returns (crashed: bool)
      requires Valid()
      modifies this
      ensures Valid()
      ensures crashed <==> DragEnd(old(itemLists), active, over).Crashed?
      ensures DragEnd(old(itemLists), active, over).Moved? ==> itemLists == DragEnd(old(itemLists), active, over).lists
      ensures !DragEnd(old(itemLists), active, over).Moved? ==> itemLists == old(itemLists)
    {
      var originalListKey := SourceBucket(itemLists, active);
      crashed := false;
      if originalListKey.Some? && originalListKey.value != "" && over.Some? && over.value != "" && originalListKey.value != over.value {
        var updatedLists := Set(itemLists, originalListKey.value, Without(Get(itemLists, originalListKey.value).value, active));
        var target := Get(updatedLists, over.value);
        if target.None? {
          crashed := true;
          return;
        }
        itemLists := Set(updatedLists, over.value, target.value + [active]);
      }
    }
  }
}
