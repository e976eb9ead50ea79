/** The author's Categorize editor
    (`client/src/components/builder/CategorizeBuilder.jsx`): a list of
    category names and a list of items, each with a text and the name of
    the category it belongs to (chosen from the categories). */
module CategorizeBuilding {
  import opened Common
  import opened JsString
  import opened QuestionModel

  /** An item as edited. */
  datatype ItemDraft = ItemDraft(text: string, category: string)

  const InitialCategories: seq<string> := ["Category 1", "Category 2"]
  const InitialItems: seq<ItemDraft> := [ItemDraft("", "Category 1")]

  /** Every item names one of the categories. */
  predicate ItemsFiled(categories: seq<string>, items: seq<ItemDraft>) {
    forall j :: 0 <= j < |items| ==> items[j].category in categories
  }

  /** `handleCategoryChange(index, value)`: only that name changes; the items
      keep the category text they had. */
  function RenameCategory(categories: seq<string>, index: nat, value: string): (r: seq<string>)
    requires index < |categories|
    ensures |r| == |categories| && r[index] == value
    ensures forall i :: 0 <= i < |categories| && i != index ==> r[i] == categories[i]
  {
    categories[index := value]
  }

  /** Renaming a category that an item is filed under leaves that item
      filed under a name that is no longer a category. */
  lemma RenameStrandsItems(categories: seq<string>, items: seq<ItemDraft>, index: nat, value: string, j: nat)
    requires NoDup(categories) && index < |categories| && j < |items|
    requires items[j].category == categories[index] && value != categories[index]
    ensures items[j].category !in RenameCategory(categories, index, value)
  {
  }

  /** The name `addCategory` gives the new category. */
  function DefaultName(n: nat): string {
    "Category " + NatToString(n)
  }

  /** `addCategory`: a category named after the new count, appended. */
  function AddedCategory(categories: seq<string>): (r: seq<string>)
    ensures |r| == |categories| + 1 && r[..|categories|] == categories
    ensures r[|categories|] == DefaultName(|categories| + 1)
  {
    categories + [DefaultName(|categories| + 1)]
  }

  /** A new category's name can repeat an existing one: after the second
      category is renamed "Category 3", adding a category adds a second
      "Category 3". */
  lemma AddCategoryCanRepeat()
    ensures AddedCategory(["Category 1", "Category 3"]) == ["Category 1", "Category 3", "Category 3"]
  {
    assert Digit(3) == '3';
    assert NatToString(3) == "3";
    assert DefaultName(3) == "Category 3";
  }

  /** `handleItemChange(index, 'text', value)`. */
  function SetItemText(items: seq<ItemDraft>, index: nat, value: string): (r: seq<ItemDraft>)
    requires index < |items|
    ensures |r| == |items| && r[index] == ItemDraft(value, items[index].category)
    ensures forall j :: 0 <= j < |items| && j != index ==> r[j] == items[j]
  {
    items[index := items[index].(text := value)]
  }

  /** `handleItemChange(index, 'category', value)`. */
  function SetItemCategory(items: seq<ItemDraft>, index: nat, value: string): (r: seq<ItemDraft>)
    requires index < |items|
    ensures |r| == |items| && r[index] == ItemDraft(items[index].text, value)
    ensures forall j :: 0 <= j < |items| && j != index ==> r[j] == items[j]
  {
    items[index := items[index].(category := value)]
  }

  /** `addItem`: an item with empty text filed under the first category, or
      under `''` when there is none. */
  function AddedItem(categories: seq<string>, items: seq<ItemDraft>): (r: seq<ItemDraft>)
    ensures |r| == |items| + 1 && r[..|items|] == items && r[|items|].text == ""
    ensures |categories| > 0 ==> r[|items|].category == categories[0]
    ensures |categories| == 0 ==> r[|items|].category == ""
  {
    items + [ItemDraft("", if |categories| > 0 then categories[0] else "")]
  }

  /** Filing is kept by every edit except renaming a category: adding a
      category or an item, editing an item's text, and choosing an item's
      category from the list. */
  lemma EditsKeepFiling(categories: seq<string>, items: seq<ItemDraft>, index: nat, value: string)
    requires ItemsFiled(categories, items)
    ensures ItemsFiled(AddedCategory(categories), items)
    ensures |categories| > 0 ==> ItemsFiled(categories, AddedItem(categories, items))
    ensures index < |items| ==> ItemsFiled(categories, SetItemText(items, index, value))
    ensures index < |items| && value in categories ==> ItemsFiled(categories, SetItemCategory(items, index, value))
  {
    var c := AddedCategory(categories);
    forall j | 0 <= j < |items| ensures items[j].category in c {
      assert c[..|categories|] == categories;
    }
  }

  /** The body `handleSave` hands to `onSave`. */
  datatype Payload = Payload(categories: seq<string>, items: seq<ItemDraft>, image: string)

  /** `handleSave`: refused (an alert) when a category name or an item text
      is blank after trimming; otherwise categories and items go out as
      edited. */
  function Save(categories: seq<string>, items: seq<ItemDraft>, imageUrl: string): (r: Option<Payload>)
    ensures r.Some? <==> (forall i :: 0 <= i < |categories| ==> !IsBlank(categories[i]))
                         && (forall j :: 0 <= j < |items| ==> !IsBlank(items[j].text))
    ensures r.Some? ==> r.value.categories == categories && r.value.items == items && r.value.image == imageUrl
  {
    if (exists i :: 0 <= i < |categories| && IsBlank(categories[i])) || (exists j :: 0 <= j < |items| && IsBlank(items[j].text)) then None
    else Some(Payload(categories, items, imageUrl))
  }

  /** The items with the ids the database gives them. */
  function StoredItems(ids: seq<string>, items: seq<ItemDraft>): (r: seq<Item>)
    requires |ids| == |items|
    ensures |r| == |items|
    ensures forall j :: 0 <= j < |items| ==> r[j] == Item(ids[j], Some(items[j].text), Some(items[j].category))
  {
    if items == [] then []
    else [Item(ids[0], Some(items[0].text), Some(items[0].category))] + StoredItems(ids[1..], items[1..])
  }

  /** The body of the request that adds the question. */
  function Stored(ids: seq<string>, p: Payload): QuestionInput
    requires |ids| == |p.items|
  {
    QuestionInput(Some("Categorize"), None, Some(p.image), Some(p.categories), Some(StoredItems(ids, p.items)), None, None, None, None)
  }

  /** A saved Categorize is accepted by the question model; every stored item
      has a non-blank text and, on a filed editor, a category of the
      question, which is its answer key. */
  lemma SaveStored(ids: seq<string>, categories: seq<string>, items: seq<ItemDraft>, imageUrl: string)
    requires Save(categories, items, imageUrl).Some? && |ids| == |items|
    ensures var q := CreateQuestion("", Stored(ids, Save(categories, items, imageUrl).value));
      && q.Some? && q.value.kind == Categorize && q.value.categories == categories
      && |q.value.items| == |items|
      && (forall j :: 0 <= j < |items| ==>
            (q.value.items[j].text == Some(items[j].text) && !IsBlank(items[j].text)
             && q.value.items[j].category == Some(items[j].category)))
      && (ItemsFiled(categories, items) ==> forall j :: 0 <= j < |items| ==> q.value.items[j].category.value in q.value.categories)
  {
    ParseTypeName(Categorize, Categorize);
    var q := CreateQuestion("", Stored(ids, Save(categories, items, imageUrl).value));
    assert q.value.items == StoredItems(ids, items);
  }

  /** The editor. No operation removes a category, so there are always at
      least the two it starts with. */
  class CategorizeBuilder {
    var categories: seq<string>
    var items: seq<ItemDraft>

    predicate Valid()
      reads this
    {
      |categories| >= 2
    }

    constructor()
      ensures categories == InitialCategories && items == InitialItems
      ensures Valid() && ItemsFiled(categories, items)
    {
      categories := InitialCategories;
      items := InitialItems;
    }

    method HandleCategoryChange(index: nat, value: string)
      requires index < |categories|
      modifies this
      ensures categories == RenameCategory(old(categories), index, value) && items == old(items)
      ensures old(Valid()) ==> Valid()
    {
      categories := categories[index := value];
    }

    method AddCategory()
      modifies this
      ensures categories == AddedCategory(old(categories)) && items == old(items)
      ensures old(Valid()) ==> Valid()
      ensures old(ItemsFiled(categories, items)) ==> ItemsFiled(categories, items)
    {
      if ItemsFiled(categories, items) {
        EditsKeepFiling(categories, items, 0, "");
      }
      categories := categories + [DefaultName(|categories| + 1)];
    }

    method HandleItemText(index: nat, value: string)
      requires index < |items|
      modifies this
      ensures items == SetItemText(old(items), index, value) && categories == old(categories)
      ensures old(ItemsFiled(categories, items)) ==> ItemsFiled(categories, items)
    {
      if ItemsFiled(categories, items) {
        EditsKeepFiling(categories, items, index, value);
      }
      items := items[index := items[index].(text := value)];
    }

    /** The category select offers exactly the categories. */
    method HandleItemCategory(index: nat, value: string)
      requires index < |items| && value in categories
      modifies this
      ensures items == SetItemCategory(old(items), index, value) && categories == old(categories)
      ensures old(ItemsFiled(categories, items)) ==> ItemsFiled(categories, items)
    {
      if ItemsFiled(categories, items) {
        EditsKeepFiling(categories, items, index, value);
      }
      items := items[index := items[index].(category := value)];
    }

    method AddItem()
      requires Valid()
      modifies this
      ensures items == AddedItem(old(categories), old(items)) && categories == old(categories)
      ensures items[|items| - 1] == ItemDraft("", categories[0])
      ensures old(ItemsFiled(categories, items)) ==> ItemsFiled(categories, items)
    {
      if ItemsFiled(categories, items) {
        EditsKeepFiling(categories, items, 0, "");
      }
      items := items + [ItemDraft("", if |categories| > 0 then categories[0] else "")];
    }

    method HandleSave(imageUrl: string) returns (payload: Option<Payload>)
      ensures payload == Save(categories, items, imageUrl)
    {
      payload := Save(categories, items, imageUrl);
    }
  }
}
