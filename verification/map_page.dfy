/** The page that shows items of a category on a map: the state saved in
    the history, the hash `itemType,code,X` that leads back to it (X an item
    id or `all`), which items a hash selects, and how a saved state is
    restored when a map is already shown. The map itself and the filter on
    coordinates are not part of this model. */
module MapPage {
  import opened Common
  import opened ClientItem
  import Svc = ApiService
  import opened PageState
  import Utils

  const MapPageClass: string := "MapPage"

  /** The third hash field when the page does not show exactly one item. */
  const AllField: string := "all"

  /** The page: the category it belongs to and the items on the map. */
  datatype MapPage = MapPage(category: Svc.Category, items: seq<Item>)

  // ---------------------------------------------------------------------------
  // State and hash
  // ---------------------------------------------------------------------------

  /** The third hash field: the id of the only item, `all` for none or
      several. */
  function ItemField(objects: seq<ItemObject>): string
  {
    if |objects| == 1 then IntToString(objects[0].itemId) else AllField
  }

  /** `_generateState`: the page class, the items as objects, the category
      and the hash. */
  function GenerateState(category: Svc.Category, items: seq<Item>): (r: PageState)
    ensures r.pageClass == Some(MapPageClass) && r.category == Some(category)
    ensures r.items == Svc.ToObjects(items)
    ensures r.hash == Some(category.itemType + "," + category.code + "," + ItemField(r.items))
  {
    var objects := Svc.ToObjects(items);
    BaseState.(
      pageClass := Some(MapPageClass),
      items := objects,
      category := Some(category),
      hash := Some(category.itemType + "," + category.code + "," + ItemField(objects)))
  }

  /** `getState`: the state of the items on the map. */
  function GetState(page: MapPage): PageState
  {
    GenerateState(page.category, page.items)
  }

  /** What the third field may be: `all` in any case, or decimal digits. */
  predicate IsItemField(s: string)
  {
    ToLower(s) == AllField || (|s| > 0 && AllDigits(s))
  }

  /** `navigateFromHash`: item type, category code and item field of a hash
      of that shape; no navigation for any other hash. */
  function ParseHash(hash: string): (r: Option<(string, string, string)>)
    ensures r.Some? ==> IsHashWord(r.value.0) && IsHashWord(r.value.1) && IsItemField(r.value.2)
    ensures r.Some? ==> hash == r.value.0 + "," + r.value.1 + "," + r.value.2
  {
    var parts := Split(hash, ',');
    if |parts| == 3 && IsHashWord(parts[0]) && IsHashWord(parts[1]) && IsItemField(parts[2]) then
      JoinThree(parts, ',');
      Some((parts[0], parts[1], parts[2]))
    else None
  }

  /** Every hash of that shape is accepted and read back as its fields. */
  lemma ParseHashAccepts(itemType: string, code: string, field: string)
    requires IsHashWord(itemType) && IsHashWord(code) && IsItemField(field)
    ensures ParseHash(itemType + "," + code + "," + field) == Some((itemType, code, field))
  {
    WordCommaFree(itemType);
    WordCommaFree(code);
    FieldCommaFree(field);
    var parts := [itemType, code, field];
    SplitJoin(parts, ',');
    JoinThree(parts, ',');
  }

  lemma WordCommaFree(s: string)
    requires IsHashWord(s)
    ensures ',' !in s
  {
    forall i | 0 <= i < |s| ensures s[i] != ',' {
      assert IsHashChar(s[i]);
    }
  }

  lemma FieldCommaFree(s: string)
    requires IsItemField(s)
    ensures ',' !in s
  {
    if ToLower(s) == AllField {
      forall i | 0 <= i < |s| ensures s[i] != ',' {
        assert LowerChar(s[i]) == AllField[i];
      }
    }
  }

  /** A page of items with non-negative ids, in a category whose type and
      code are hash fields, is found again from its saved hash. */
  lemma HashRoundTrip(page: MapPage)
    requires IsHashWord(page.category.itemType) && IsHashWord(page.category.code)
    requires forall i | 0 <= i < |page.items| :: page.items[i].itemId >= 0
    ensures var field := ItemField(Svc.ToObjects(page.items));
      ParseHash(GetState(page).hash.value) == Some((page.category.itemType, page.category.code, field))
  {
    var objects := Svc.ToObjects(page.items);
    if |objects| != 1 {
      AllIsField();
    }
    ParseHashAccepts(page.category.itemType, page.category.code, ItemField(objects));
  }

  lemma AllIsField()
    ensures IsItemField(AllField)
  {
    assert ToLower(AllField) == AllField;
  }

  // ---------------------------------------------------------------------------
  // Selecting the items of a hash
  // ---------------------------------------------------------------------------

  /** `parseInt` of the item field: the number of a run of digits, nothing
      (NaN) for `all`. */
  function ParseIntField(field: string): (r: Option<int>)
    requires IsItemField(field)
    ensures r.Some? <==> ToLower(field) != AllField
  {
    if ToLower(field) == AllField then None
    else
      assert |field| > 0 && AllDigits(field);
      Some(DigitsValue(field))
  }

  /** The position of the first item whose id is `id` (strict equality:
      NaN equals nothing). */
  function FirstWithId(items: seq<Item>, id: Option<int>): (r: Option<nat>)
    ensures r.None? <==> id.None? || forall k | 0 <= k < |items| :: items[k].itemId != id.value
    ensures r.Some? ==> r.value < |items| && id == Some(items[r.value].itemId)
    ensures r.Some? ==> forall k | 0 <= k < r.value :: items[k].itemId != id.value
  {
    if id.None? || |items| == 0 then None
    else if items[0].itemId == id.value then Some(0)
    else match FirstWithId(items[1..], id)
      case None => None
      case Some(k) => Some(k + 1)
  }

  /** The items the page shows once they arrive, as written: `itemId` is a
      number or NaN and is never the string `all`, so the search always
      runs; NaN finds nothing and the whole list is kept. */
  function SelectAsWritten(items: seq<Item>, field: string): seq<Item>
    requires IsItemField(field)
  {
    var itemId := ParseIntField(field);
    match FirstWithId(items, itemId)
    case Some(k) => [items[k]]
    case None => items
  }

  /** The items the page shows, as intended: every item for `all`,
      otherwise the first item with the id, or every item when none has
      it. */
  function Select(items: seq<Item>, field: string): (r: seq<Item>)
    requires IsItemField(field)
    ensures ToLower(field) == AllField ==> r == items
    ensures ToLower(field) != AllField ==> |r| == 1 || r == items
  {
    if ToLower(field) == AllField then items
    else match FirstWithId(items, Some(DigitsValue(field)))
      case Some(k) => [items[k]]
      case None => items
  }

  /** The search that cannot fail to run does no harm: what is shown is
      what the intended behaviour describes, for every accepted field. */
  lemma SelectAsWrittenIsSelect(items: seq<Item>, field: string)
    requires IsItemField(field)
    ensures SelectAsWritten(items, field) == Select(items, field)
  {
  }

  /** Following a page's own hash over the items the API returns shows the
      same item again when the page showed one item the API still has, and
      all of them otherwise. */
  lemma SelectFromOwnHash(page: MapPage, apiItems: seq<Item>)
    requires forall i | 0 <= i < |page.items| :: page.items[i].itemId >= 0
    ensures var field := ItemField(Svc.ToObjects(page.items));
      IsItemField(field) &&
      Select(apiItems, field) ==
        if |page.items| == 1 then
          match FirstWithId(apiItems, Some(page.items[0].itemId))
          case Some(k) => [apiItems[k]]
          case None => apiItems
        else apiItems
  {
    var objects := Svc.ToObjects(page.items);
    if |objects| == 1 {
      var id := objects[0].itemId;
      assert id == page.items[0].itemId >= 0;
      DigitsValueOfNatToString(id);
      assert ToLower(IntToString(id)) != AllField by {
        assert IsDigit(IntToString(id)[0]);
        assert ToLower(IntToString(id))[0] == IntToString(id)[0];
      }
    } else {
      AllIsField();
    }
  }

  /** After the categories and the items arrive: the page of the hash's
      category with the selected items, or none when the answer has no
      such category (the source then fails reading its name). */
  function Landing(categories: map<string, Svc.Category>, code: string, apiItems: seq<Item>, field: string): (r: Option<MapPage>)
    requires IsItemField(field)
    ensures r.Some? <==> code in categories
    ensures r.Some? ==> r.value.category == categories[code] && r.value.items == Select(apiItems, field)
  {
    if code in categories then Some(MapPage(categories[code], Select(apiItems, field))) else None
  }

  // ---------------------------------------------------------------------------
  // Restoring from a saved state
  // ---------------------------------------------------------------------------

  /** What restoring leads to: the current map reset in place, or a new map
      page. */
  datatype Restore = ResetCurrent | Show(page: MapPage)

  /** `fromState` with the comparison of item ids given. */
  function FromStateWith(state: PageState, current: Option<MapPage>, sameNumbers: (seq<int>, seq<int>) -> bool): Result<Restore, PageError>
  {
    if state.pageClass != Some(MapPageClass) then Err(WrongPageClass(MapPageClass))
    else if current.Some? && sameNumbers(ItemIds(GetState(current.value).items), ItemIds(state.items)) then Ok(ResetCurrent)
    else match state.category
      case None => Err(MissingCategory)
      case Some(c) => Ok(Show(MapPage(c, FromObjects(state.items))))
  }

  /** `fromState` as written, with the comparison that only looks at the
      lengths. */
  function FromStateAsWritten(state: PageState, current: Option<MapPage>): Result<Restore, PageError>
  {
    FromStateWith(state, current, Utils.HasSameNumbersAsWritten)
  }

  /** `fromState` as intended: refused unless the state is a map page's;
      when a map is shown with the same item ids as the state, that map is
      reset instead of opening a new page. */
  function FromState(state: PageState, current: Option<MapPage>): (r: Result<Restore, PageError>)
    ensures state.pageClass != Some(MapPageClass) ==> r == Err(WrongPageClass(MapPageClass))
    ensures r.Ok? && r.value.Show? ==> Some(r.value.page.category) == state.category
    ensures r.Ok? && r.value.Show? ==> r.value.page.items == FromObjects(state.items)
  {
    FromStateWith(state, current, Utils.HasSameNumbers)
  }

  /** The current map is reset exactly when the state is a map page's and
      the map shows the same item ids, each as many times. */
  lemma FromStateResets(state: PageState, current: Option<MapPage>)
    ensures FromState(state, current) == Ok(ResetCurrent) <==>
      state.pageClass == Some(MapPageClass) && current.Some?
      && multiset(ItemIds(Svc.ToObjects(current.value.items))) == multiset(ItemIds(state.items))
  {
    if current.Some? {
      Utils.HasSameNumbersIsSameMultiset(ItemIds(GetState(current.value).items), ItemIds(state.items));
    }
  }

  /** As written, the current map is reset exactly when the state is a map
      page's and the map shows as many items as the state holds. */
  lemma FromStateAsWrittenResets(state: PageState, current: Option<MapPage>)
    ensures FromStateAsWritten(state, current) == Ok(ResetCurrent) <==>
      state.pageClass == Some(MapPageClass) && current.Some?
      && |current.value.items| == |state.items|
  {
    if current.Some? {
      Utils.HasSameNumbersAsWrittenIsLength(ItemIds(GetState(current.value).items), ItemIds(state.items));
    }
  }

  /** With no map shown, a page restored from its own saved state is the
      same page; with that page shown, its map is reset. */
  lemma StateRoundTrip(page: MapPage)
    ensures FromState(GetState(page), None) == Ok(Show(page))
    ensures FromState(GetState(page), Some(page)) == Ok(ResetCurrent)
  {
    FromObjectsToObjects(page.items);
    FromStateResets(GetState(page), Some(page));
  }

  /** As written, a map showing one item is reset in place when the state
      to restore holds one other item: the page of that item never opens. */
  lemma FromStateAsWrittenKeepsWrongMap(page: MapPage, state: PageState)
    requires state.pageClass == Some(MapPageClass) && state.category.Some?
    requires |page.items| == 1 && |state.items| == 1 && state.items[0].itemId != page.items[0].itemId
    ensures FromStateAsWritten(state, Some(page)) == Ok(ResetCurrent)
    ensures FromState(state, Some(page)).Ok? && FromState(state, Some(page)).value.Show?
  {
    var a := ItemIds(GetState(page).items);
    var b := ItemIds(state.items);
    Utils.HasSameNumbersAsWrittenIsLength(a, b);
    Utils.HasSameNumbersIsSameMultiset(a, b);
    assert a == [page.items[0].itemId] && b == [state.items[0].itemId];
    assert a[0] in multiset(a) && a[0] !in multiset(b);
  }
}
