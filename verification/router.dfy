/** The web app's router: the URL written for a saved page state, the page a
    URL hash leads to, and the page a history entry restores. `encodeURI`
    and `decodeURI` are parameters (`decodeURI` answers nothing where it
    would throw); the lemmas state what they need of them. */
module Router {
  import opened Common
  import opened PageState
  import List = ListPage
  import Map = MapPage

  /** The class names of the two pages whose own code is not part of this
      model. */
  const CategoriesGridPageClass: string := "CategoriesGridPage"
  const EmergencyPageClass: string := "EmergencyPage"

  /** JavaScript's `String(x)` for a string that may be `null`. */
  function NullText(o: Option<string>): string
  {
    match o
    case Some(s) => s
    case None => "null"
  }

  // ---------------------------------------------------------------------------
  // The URL of a state
  // ---------------------------------------------------------------------------

  /** `indexOf` for a string: the first position where `t` occurs in `s`. */
  function IndexOfText(s: string, t: string): (r: Option<nat>)
    ensures r.Some? ==> r.value + |t| <= |s| && s[r.value..r.value + |t|] == t
    ensures r.Some? ==> forall k | 0 <= k < r.value :: !StartsWith(s[k..], t)
    decreases |s|
  {
    if StartsWith(s, t) then Some(0)
    else if |s| == 0 then None
    else match IndexOfText(s[1..], t)
      case None => None
      case Some(k) =>
        assert forall j | 1 <= j <= k :: s[j..] == s[1..][j - 1..];
        Some(k + 1)
  }

  /** The current URL without its hash: `substr(0, indexOf(hash) ||
      length)`. Position 0 counts as "not found" and keeps the whole URL;
      a hash that does not occur (-1) keeps nothing. */
  function WithoutHash(href: string, locationHash: string): string
  {
    var index := match IndexOfText(href, locationHash) case Some(k) => k as int case None => -1;
    var end := if index == 0 then |href| else index;
    if end < 0 then "" else href[..end]
  }

  /** With a hash that starts with `#` after a non-empty URL without `#`,
      removing the hash gives that URL back; with no hash the URL is kept. */
  lemma WithoutHashRemovesHash(base: string, locationHash: string)
    requires |base| > 0 && '#' !in base
    requires |locationHash| > 0 && locationHash[0] == '#'
    ensures WithoutHash(base + locationHash, locationHash) == base
  {
    var href := base + locationHash;
    assert href[|base|..] == locationHash;
    assert StartsWith(href[|base|..], locationHash);
    forall k | 0 <= k < |base|
      ensures !StartsWith(href[k..], locationHash)
    {
      assert href[k..][0] == base[k];
    }
    IndexOfTextAt(href, locationHash, |base|);
  }

  lemma WithoutHashKeepsUrl(href: string)
    ensures WithoutHash(href, "") == href
  {
    assert StartsWith(href, "");
  }

  lemma {:induction false} IndexOfTextAt(s: string, t: string, k: nat)
    requires k + |t| <= |s| && StartsWith(s[k..], t)
    requires forall j | 0 <= j < k :: !StartsWith(s[j..], t)
    ensures IndexOfText(s, t) == Some(k)
    decreases k
  {
    if k > 0 {
      assert !StartsWith(s[0..], t) && s[0..] == s;
      assert s[1..][k - 1..] == s[k..];
      forall j | 0 <= j < k - 1 ensures !StartsWith(s[1..][j..], t) {
        assert s[1..][j..] == s[j + 1..];
      }
      IndexOfTextAt(s[1..], t, k - 1);
    } else {
      assert s[0..] == s;
    }
  }

  /** `_urlFor`: `#class:hash` when the state has a hash, `#class` when it
      has only a class, and the current URL without its hash otherwise.
      Both parts are passed through `encodeURI`. */
  function UrlFor(state: PageState, encodeUri: string -> string, href: string, locationHash: string): string
  {
    if state.hash.Some? && state.hash.value != "" then
      "#" + encodeUri(NullText(state.pageClass)) + ":" + encodeUri(state.hash.value)
    else if state.pageClass.Some? && state.pageClass.value != "" then
      "#" + encodeUri(state.pageClass.value)
    else WithoutHash(href, locationHash)
  }

  // ---------------------------------------------------------------------------
  // Reading a hash
  // ---------------------------------------------------------------------------

  predicate NoLineTerminator(s: string)
  {
    forall i | 0 <= i < |s| :: !IsJsLineTerminator(s[i])
  }

  /** `/^#([^:]+)(:(.*))?$/`: the text up to the first `:` (at least one
      character), and what follows that `:` when there is one; a `.` does
      not match line terminators. */
  function ParseLocation(urlHash: string): (r: Option<(string, Option<string>)>)
    ensures r.Some? ==> |r.value.0| > 0 && ':' !in r.value.0
    ensures r.Some? && r.value.1.None? ==> urlHash == "#" + r.value.0
    ensures r.Some? && r.value.1.Some? ==> urlHash == "#" + r.value.0 + ":" + r.value.1.value
    ensures r.Some? && r.value.1.Some? ==> NoLineTerminator(r.value.1.value)
  {
    if |urlHash| == 0 || urlHash[0] != '#' then None
    else
      var rest := urlHash[1..];
      CutAt(urlHash, 0);
      match IndexOf(rest, ':')
      case None => if |rest| > 0 then Some((rest, None)) else None
      case Some(k) =>
        var tail := rest[k + 1..];
        CutAt(rest, k);
        HashColon(urlHash, rest[..k], tail);
        if k > 0 && NoLineTerminator(tail) then Some((rest[..k], Some(tail))) else None
  }

  lemma HashColon(urlHash: string, name: string, tail: string)
    requires |urlHash| > 0 && urlHash == [urlHash[0]] + urlHash[1..] && urlHash[0] == '#'
    requires urlHash[1..] == name + [':'] + tail
    ensures urlHash == "#" + name + ":" + tail
  {
  }

  /** Every text of that shape is accepted and read back as its parts. */
  lemma ParseLocationAccepts(className: string, stateHash: Option<string>)
    requires |className| > 0 && ':' !in className
    requires stateHash.Some? ==> NoLineTerminator(stateHash.value)
    ensures var urlHash := if stateHash.Some? then "#" + className + ":" + stateHash.value else "#" + className;
      ParseLocation(urlHash) == Some((className, stateHash))
  {
    var urlHash := if stateHash.Some? then "#" + className + ":" + stateHash.value else "#" + className;
    var rest := urlHash[1..];
    if stateHash.Some? {
      assert rest == className + ":" + stateHash.value;
      assert rest[..|className|] == className;
      IndexOfAt(rest, ':', |className|);
      assert rest[|className| + 1..] == stateHash.value;
    } else {
      assert rest == className;
    }
  }

  /** Where a hash leads besides the home page, which always loads first. */
  datatype Navigation =
    | HomeOnly
    | ToCategoriesGrid(stateHash: Option<string>)
    | ToList(itemType: string, code: string)
    | ToMap(itemType: string, code: string, itemField: string)
    | ToEmergency(stateHash: Option<string>)

  /** The four class names the router's `switch` knows. */
  predicate IsKnownClass(className: string)
  {
    className in [CategoriesGridPageClass, List.ListPageClass, Map.MapPageClass, EmergencyPageClass]
  }

  /** The `switch` on the class name: each page's `navigateFromHash`. The
      list and map pages parse the hash themselves (a `null` hash reads
      `null`); the other two pages get it as it is. An unknown class leads
      nowhere. */
  function Dispatch(className: string, stateHash: Option<string>): (r: Navigation)
    ensures !IsKnownClass(className) ==> r == HomeOnly
    ensures r.ToList? ==>
              className == List.ListPageClass && List.ParseHash(NullText(stateHash)) == Some((r.itemType, r.code))
    ensures r.ToMap? ==>
              className == Map.MapPageClass && Map.ParseHash(NullText(stateHash)) == Some((r.itemType, r.code, r.itemField))
  {
    if className == CategoriesGridPageClass then ToCategoriesGrid(stateHash)
    else if className == List.ListPageClass then
      match List.ParseHash(NullText(stateHash))
      case Some((itemType, code)) => ToList(itemType, code)
      case None => HomeOnly
    else if className == Map.MapPageClass then
      match Map.ParseHash(NullText(stateHash))
      case Some((itemType, code, field)) => ToMap(itemType, code, field)
      case None => HomeOnly
    else if className == EmergencyPageClass then ToEmergency(stateHash)
    else HomeOnly
  }

  /** `_onLocation` as written: `matchs.length` is always 4, so a hash with
      no `:` passes `decodeURI(undefined)`, the text `undefined`, as the
      state hash. A `decodeURI` that throws ends the navigation. */
  function OnLocationAsWritten(urlHash: string, decodeUri: string -> Option<string>): Navigation
  {
    if urlHash == "" then HomeOnly
    else match ParseLocation(urlHash)
      case None => HomeOnly
      case Some((rawClass, rawHash)) =>
        match decodeUri(rawClass)
        case None => HomeOnly
        case Some(className) =>
          match decodeUri(TemplateText(rawHash))
          case None => HomeOnly
          case Some(stateHash) => Dispatch(className, Some(stateHash))
  }

  /** `_onLocation` as intended: the state hash is `null` when the hash has
      no `:`. */
  function OnLocation(urlHash: string, decodeUri: string -> Option<string>): (r: Navigation)
    ensures urlHash == "" || ParseLocation(urlHash).None? ==> r == HomeOnly
  {
    if urlHash == "" then HomeOnly
    else match ParseLocation(urlHash)
      case None => HomeOnly
      case Some((rawClass, rawHash)) =>
        match decodeUri(rawClass)
        case None => HomeOnly
        case Some(className) =>
          match rawHash
          case None => Dispatch(className, None)
          case Some(h) =>
            match decodeUri(h)
            case None => HomeOnly
            case Some(stateHash) => Dispatch(className, Some(stateHash))
  }

  /** `decodeURI` leaves text without `%` as it is. */
  ghost predicate DecodesPlain(decodeUri: string -> Option<string>)
  {
    forall s | '%' !in s :: decodeUri(s) == Some(s)
  }

  /** For a bare `#class`, the state hash as written is the text
      `undefined` where the intended behaviour has none. */
  lemma BareClassGetsUndefined(className: string, decodeUri: string -> Option<string>)
    requires |className| > 0 && ':' !in className && '%' !in className
    requires DecodesPlain(decodeUri)
    ensures OnLocationAsWritten("#" + className, decodeUri) == Dispatch(className, Some("undefined"))
    ensures OnLocation("#" + className, decodeUri) == Dispatch(className, None)
  {
    ParseLocationAccepts(className, None);
    assert '%' !in TemplateText(None);
  }

  /** The list and map pages refuse both `undefined` and `null` alike, so
      for them the two readings lead to the same place: the home page. */
  lemma BareClassHarmlessForListAndMap(className: string)
    requires className == List.ListPageClass || className == Map.MapPageClass
    ensures Dispatch(className, Some("undefined")) == Dispatch(className, None) == HomeOnly
  {
    NoCommaNoHash("undefined");
    NoCommaNoHash("null");
  }

  lemma NoCommaNoHash(s: string)
    requires ',' !in s
    ensures List.ParseHash(s).None? && Map.ParseHash(s).None?
  {
    SplitJoin([s], ',');
  }

  /** The grid and emergency pages do see the difference. */
  lemma BareClassVisibleElsewhere(className: string)
    requires className == CategoriesGridPageClass || className == EmergencyPageClass
    ensures Dispatch(className, Some("undefined")) != Dispatch(className, None)
  {
  }

  // ---------------------------------------------------------------------------
  // URL and hash together
  // ---------------------------------------------------------------------------

  /** `decodeURI` undoes `encodeURI`. */
  ghost predicate Inverse(encodeUri: string -> string, decodeUri: string -> Option<string>)
  {
    forall s :: decodeUri(encodeUri(s)) == Some(s)
  }

  /** The URL of a state with a class and a hash leads to that class's page
      with that hash, when the encoded class holds no `:` and the encoded
      hash no line terminator (`encodeURI` escapes those). */
  lemma UrlForRoundTrip(state: PageState, encodeUri: string -> string, decodeUri: string -> Option<string>, href: string, locationHash: string)
    requires Inverse(encodeUri, decodeUri)
    requires state.pageClass.Some? && state.hash.Some? && state.hash.value != ""
    requires var c := encodeUri(state.pageClass.value); |c| > 0 && ':' !in c
    requires NoLineTerminator(encodeUri(state.hash.value))
    ensures OnLocation(UrlFor(state, encodeUri, href, locationHash), decodeUri)
      == Dispatch(state.pageClass.value, state.hash)
  {
    var c := encodeUri(state.pageClass.value);
    var h := encodeUri(state.hash.value);
    ParseLocationAccepts(c, Some(h));
    assert decodeUri(c) == Some(state.pageClass.value);
    assert decodeUri(h) == Some(state.hash.value);
  }

  /** A list page saved in the history is found again from its URL. */
  lemma ListUrlRoundTrip(page: List.ListPage, encodeUri: string -> string, decodeUri: string -> Option<string>, href: string, locationHash: string)
    requires Inverse(encodeUri, decodeUri)
    requires IsHashWord(page.category.itemType) && IsHashWord(page.category.code)
    requires var c := encodeUri(List.ListPageClass); |c| > 0 && ':' !in c
    requires NoLineTerminator(encodeUri(List.GetState(page).hash.value))
    ensures OnLocation(UrlFor(List.GetState(page), encodeUri, href, locationHash), decodeUri)
      == ToList(page.category.itemType, page.category.code)
  {
    UrlForRoundTrip(List.GetState(page), encodeUri, decodeUri, href, locationHash);
    List.HashRoundTrip(page);
  }

  /** A map page saved in the history is found again from its URL. */
  lemma MapUrlRoundTrip(page: Map.MapPage, encodeUri: string -> string, decodeUri: string -> Option<string>, href: string, locationHash: string)
    requires Inverse(encodeUri, decodeUri)
    requires IsHashWord(page.category.itemType) && IsHashWord(page.category.code)
    requires forall i | 0 <= i < |page.items| :: page.items[i].itemId >= 0
    requires var c := encodeUri(Map.MapPageClass); |c| > 0 && ':' !in c
    requires NoLineTerminator(encodeUri(Map.GetState(page).hash.value))
    ensures OnLocation(UrlFor(Map.GetState(page), encodeUri, href, locationHash), decodeUri)
      == ToMap(page.category.itemType, page.category.code, Map.ItemField(Map.GetState(page).items))
  {
    UrlForRoundTrip(Map.GetState(page), encodeUri, decodeUri, href, locationHash);
    Map.HashRoundTrip(page);
  }

  // ---------------------------------------------------------------------------
  // History entries
  // ---------------------------------------------------------------------------

  /** What a history entry leads to. The grid and emergency pages are
      restored by their own code, which is not part of this model. */
  datatype Popped =
    | LoadCategoriesGrid(state: PageState)
    | LoadList(listPage: List.ListPage)
    | LoadMap(mapPage: Map.MapPage)
    | ResetShownMap
    | LoadEmergency(state: PageState)
    | LoadHome
    | Failed(error: PageError)
    | FromLocation(navigation: Navigation)

  /** `onStatePopping` with the map page's restore and the location reader
      given. */
  function OnStatePoppingWith(event: Option<PageState>, current: Option<Map.MapPage>, locationHash: string, decodeUri: string -> Option<string>,
                              restoreMap: (PageState, Option<Map.MapPage>) -> Result<Map.Restore, PageError>,
                              onLocation: (string, string -> Option<string>) -> Navigation): Popped
  {
    match event
    case None => FromLocation(onLocation(locationHash, decodeUri))
    case Some(state) =>
      if state.pageClass == Some(CategoriesGridPageClass) then LoadCategoriesGrid(state)
      else if state.pageClass == Some(List.ListPageClass) then
        match List.FromState(state)
        case Ok(page) => LoadList(page)
        case Err(e) => Failed(e)
      else if state.pageClass == Some(Map.MapPageClass) then
        match restoreMap(state, current)
        case Ok(Show(page)) => LoadMap(page)
        case Ok(ResetCurrent) => ResetShownMap
        case Err(e) => Failed(e)
      else if state.pageClass == Some(EmergencyPageClass) then LoadEmergency(state)
      else LoadHome
  }

  /** `onStatePopping` as written: with a state, the page of its class
      restores itself (an unknown or missing class gives the home page), the
      map page with the comparison that only looks at lengths; without one,
      the URL hash is followed by `_onLocation` as written. */
  function OnStatePopping(event: Option<PageState>, current: Option<Map.MapPage>, locationHash: string, decodeUri: string -> Option<string>): (r: Popped)
    ensures event.None? ==> r == FromLocation(OnLocationAsWritten(locationHash, decodeUri))
    ensures event.Some? ==> !r.FromLocation?
    ensures r.Failed? ==> r.error == MissingCategory
  {
    OnStatePoppingWith(event, current, locationHash, decodeUri, Map.FromStateAsWritten, OnLocationAsWritten)
  }

  /** `onStatePopping` as intended: the map page compares the item ids
      themselves, and a bare `#class` carries no state hash. */
  function OnStatePoppingAsIntended(event: Option<PageState>, current: Option<Map.MapPage>, locationHash: string, decodeUri: string -> Option<string>): (r: Popped)
    ensures event.None? ==> r == FromLocation(OnLocation(locationHash, decodeUri))
    ensures event.Some? ==> !r.FromLocation?
    ensures r.Failed? ==> r.error == MissingCategory
  {
    OnStatePoppingWith(event, current, locationHash, decodeUri, Map.FromState, OnLocation)
  }

  /** The two readings part only on a map page's state popped while a map
      is shown: every other saved state leads to the same place. */
  lemma PoppingAsWrittenDiffersOnlyOnShownMaps(state: PageState, current: Option<Map.MapPage>, locationHash: string, decodeUri: string -> Option<string>)
    requires state.pageClass != Some(Map.MapPageClass) || current.None?
    ensures OnStatePopping(Some(state), current, locationHash, decodeUri) == OnStatePoppingAsIntended(Some(state), current, locationHash, decodeUri)
  {
  }

  /** A class the switch does not know, or none, restores the home page. */
  lemma UnknownClassGoesHome(state: PageState, current: Option<Map.MapPage>, locationHash: string, decodeUri: string -> Option<string>)
    requires state.pageClass.None? || !IsKnownClass(state.pageClass.value)
    ensures OnStatePopping(Some(state), current, locationHash, decodeUri) == LoadHome
  {
  }

  /** A list or map page's own history entry restores that page; a map's
      entry popped while the same map is shown resets it. */
  lemma PoppingOwnStates(listPage: List.ListPage, mapPage: Map.MapPage, locationHash: string, decodeUri: string -> Option<string>)
    ensures OnStatePopping(Some(List.GetState(listPage)), None, locationHash, decodeUri) == LoadList(listPage)
    ensures OnStatePopping(Some(Map.GetState(mapPage)), None, locationHash, decodeUri) == LoadMap(mapPage)
    ensures OnStatePopping(Some(Map.GetState(mapPage)), Some(mapPage), locationHash, decodeUri) == ResetShownMap
    ensures OnStatePoppingAsIntended(Some(List.GetState(listPage)), None, locationHash, decodeUri) == LoadList(listPage)
    ensures OnStatePoppingAsIntended(Some(Map.GetState(mapPage)), None, locationHash, decodeUri) == LoadMap(mapPage)
    ensures OnStatePoppingAsIntended(Some(Map.GetState(mapPage)), Some(mapPage), locationHash, decodeUri) == ResetShownMap
  {
    List.StateRoundTrip(listPage);
    Map.StateRoundTrip(mapPage);
    Map.FromStateAsWrittenResets(Map.GetState(mapPage), Some(mapPage));
  }
}
