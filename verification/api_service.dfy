/** The web app's API service: the URLs of the API's resources, the requests
    it makes through the adapter, how it hands the answers to its callers,
    and how logging in and out changes the adapter's authorisation. */
module ApiService {
  import opened Common
  import UriEncoding
  import opened ClientItem
  import ClientPeriod
  import Ajax = ApiAjaxAdapter
  import SessionManager

  /** `API_BASE_URL`: the API's folder under the resources' base URL. */
  const ApiBaseUrl := "api_v1"

  /** The shared parameter that carries the session token. */
  const TokenKey := "token"

  /** The key the client sends the token under is the value the model
      assumes for the server's `TOKEN_PARAM`, which `IApiInterface` does not
      declare. */
  lemma TokenKeyIsTokenParam()
    ensures TokenKey == SessionManager.TokenParam
  {
  }

  // ---------------------------------------------------------------------------
  // URLs
  // ---------------------------------------------------------------------------

  /** A relative URL given by its segments, joined by slashes. */
  function Path(segments: seq<string>): string
  {
    Join(segments, '/')
  }

  /** `buildCategoriesUrl`: `item-types/<type>/categories/`. */
  function CategoriesUrl(itemType: string): string
  {
    Path(["item-types", UriEncoding.Encode(itemType), "categories", ""])
  }

  /** `buildItemsInCategoryUrl`: `categories/<code>/items/`. */
  function ItemsInCategoryUrl(categoryCode: string): string
  {
    Path(["categories", UriEncoding.Encode(categoryCode), "items", ""])
  }

  /** `buildAllItemsUri`. */
  const AllItemsUrl := "items/"

  /** `buildSingleItemUrl`: `items/<id>`, the id as its decimal text, encoded. */
  function SingleItemUrl(itemId: int): string
  {
    Path(["items", UriEncoding.Encode(IntToString(itemId))])
  }

  /** `buildSingleItemIconUrl`: `items/<id>/icon`. */
  function SingleItemIconUrl(itemId: int): string
  {
    Path(["items", UriEncoding.Encode(IntToString(itemId)), "icon"])
  }

  /** `buildLoginUrl`. */
  const LoginUrl := "session"

  /** Slash-free segments come back from splitting their path. */
  lemma PathRoundTrip(segments: seq<string>)
    requires |segments| > 0 && forall i | 0 <= i < |segments| :: '/' !in segments[i]
    ensures Split(Path(segments), '/') == segments
  {
    SplitJoin(segments, '/');
  }

  /** The categories URL names the collection and carries the item type,
      which the API can read back. */
  lemma CategoriesUrlRoundTrip(itemType: string)
    ensures Split(CategoriesUrl(itemType), '/') == ["item-types", UriEncoding.Encode(itemType), "categories", ""]
    ensures UriEncoding.Decode(Split(CategoriesUrl(itemType), '/')[1]) == Ok(itemType)
  {
    FixedSegments();
    ValueSegment("item-types", itemType, "categories");
  }

  /** The same for the items of a category. */
  lemma ItemsInCategoryUrlRoundTrip(categoryCode: string)
    ensures Split(ItemsInCategoryUrl(categoryCode), '/') == ["categories", UriEncoding.Encode(categoryCode), "items", ""]
    ensures UriEncoding.Decode(Split(ItemsInCategoryUrl(categoryCode), '/')[1]) == Ok(categoryCode)
  {
    FixedSegments();
    ValueSegment("categories", categoryCode, "items");
  }

  lemma ValueSegment(a: string, value: string, b: string)
    requires '/' !in a && '/' !in b
    ensures var e := UriEncoding.Encode(value);
      Split(Path([a, e, b, ""]), '/') == [a, e, b, ""] && UriEncoding.Decode(e) == Ok(value)
  {
    var e := UriEncoding.Encode(value);
    UriEncoding.EncodeHasNoSeparator(value);
    UriEncoding.DecodeEncode(value);
    ThreeSegments(a, e, b);
  }

  lemma ThreeSegments(a: string, e: string, b: string)
    requires '/' !in a && '/' !in e && '/' !in b
    ensures Split(Path([a, e, b, ""]), '/') == [a, e, b, ""]
  {
    var segments := [a, e, b, ""];
    forall i | 0 <= i < |segments| ensures '/' !in segments[i] {
    }
    PathRoundTrip(segments);
  }

  /** The fixed segments hold no slash. */
  lemma FixedSegments()
    ensures '/' !in "item-types" && '/' !in "categories" && '/' !in "items" && '/' !in "icon"
  {
  }

  /** An id needs no escaping: its URLs hold its decimal text. */
  lemma SingleItemUrlPlain(itemId: int)
    ensures Split(SingleItemUrl(itemId), '/') == ["items", IntToString(itemId)]
    ensures Split(SingleItemIconUrl(itemId), '/') == ["items", IntToString(itemId), "icon"]
  {
    var s := IntToString(itemId);
    IntTextUnreserved(itemId);
    UriEncoding.EncodeUnreserved(s);
    assert '/' !in s by {
      forall i | 0 <= i < |s| ensures s[i] != '/' {
        assert UriEncoding.IsUnreserved(s[i]);
      }
    }
    FixedSegments();
    PathRoundTrip(["items", s]);
    PathRoundTrip(["items", s, "icon"]);
  }

  /** The decimal text of an integer is made of digits and `-`. */
  lemma IntTextUnreserved(n: int)
    ensures forall i | 0 <= i < |IntToString(n)| :: UriEncoding.IsUnreserved(IntToString(n)[i])
  {
    var s := IntToString(n);
    forall i | 0 <= i < |s| ensures UriEncoding.IsUnreserved(s[i]) {
      if n < 0 && i > 0 {
        assert s[i] == s[1..][i - 1];
      }
    }
  }

  // ---------------------------------------------------------------------------
  // Answers
  // ---------------------------------------------------------------------------

  /** A category as the API sends it; an empty code is JavaScript-falsy. */
  datatype Category = Category(code: string, itemType: string, name: string, link: Option<string>)

  /** The position of the last category with code `k`. */
  function LastWithCode(cs: seq<Category>, k: string): (r: Option<nat>)
    ensures r.None? <==> forall i | 0 <= i < |cs| :: cs[i].code != k
    ensures r.Some? ==> r.value < |cs| && cs[r.value].code == k
    ensures r.Some? ==> forall j | r.value < j < |cs| :: cs[j].code != k
  {
    if |cs| == 0 then None
    else if cs[|cs| - 1].code == k then Some(|cs| - 1)
    else LastWithCode(cs[..|cs| - 1], k)
  }

  /** The loop of `_categoriesSuccess`: each category with a non-empty code
      stored under it, a later one replacing an earlier one. */
  function ByCode(cs: seq<Category>): (r: map<string, Category>)
    ensures forall k :: k in r <==> k != "" && LastWithCode(cs, k).Some?
    ensures forall k | k in r :: r[k] == cs[LastWithCode(cs, k).value]
  {
    if |cs| == 0 then map[]
    else
      var m := ByCode(cs[..|cs| - 1]);
      var c := cs[|cs| - 1];
      if c.code != "" then m[c.code := c] else m
  }

  /** `_categoriesSuccess`: no answer gives the empty object. */
  function CategoriesSuccess(categories: Option<seq<Category>>): (r: map<string, Category>)
    ensures categories.None? ==> r == map[]
    ensures forall k | k in r :: r[k].code == k && k != ""
    ensures categories.Some? ==> forall i | 0 <= i < |categories.value| && categories.value[i].code != "" ::
      categories.value[i].code in r
  {
    match categories
    case None => map[]
    case Some(cs) => ByCode(cs)
  }

  /** Every category sent with a code it alone has is found under that code. */
  lemma CategoryFoundByCode(cs: seq<Category>, i: nat)
    requires i < |cs| && cs[i].code != ""
    requires forall j | 0 <= j < |cs| && j != i :: cs[j].code != cs[i].code
    ensures CategoriesSuccess(Some(cs))[cs[i].code] == cs[i]
  {
    var k := cs[i].code;
    assert LastWithCode(cs, k).Some?;
  }

  /** `_itemsSuccess`: no answer gives no items; otherwise every object
      becomes an item, in order. */
  function ItemsSuccess(items: Option<seq<ItemObject>>): (r: seq<Item>)
    ensures items.None? ==> r == []
    ensures items.Some? ==> |r| == |items.value|
    ensures items.Some? ==> forall i | 0 <= i < |r| :: r[i].itemId == items.value[i].itemId
  {
    match items
    case None => []
    case Some(os) => seq(|os|, i requires 0 <= i < |os| => FromObject(os[i]))
  }

  function ToObjects(items: seq<Item>): (r: seq<ItemObject>)
    ensures |r| == |items| && forall i | 0 <= i < |r| :: r[i] == ToObject(items[i])
  {
    seq(|items|, i requires 0 <= i < |items| => ToObject(items[i]))
  }

  /** Items sent as their state objects come back as the same items. */
  lemma ItemsSuccessRoundTrip(items: seq<Item>)
    ensures ItemsSuccess(Some(ToObjects(items))) == items
  {
    forall i | 0 <= i < |items| ensures ItemsSuccess(Some(ToObjects(items)))[i] == items[i] {
      FromObjectToObject(items[i]);
    }
  }

  const UnknownError := "Unknown error occurred"

  /** The message `_errorHandling` passes on: the body's `error` when it is
      a non-empty text, a fixed message otherwise. */
  function ErrorMessage(error: Option<string>): (r: string)
    ensures r != ""
    ensures r == UnknownError <==> error.None? || error.value == "" || error.value == UnknownError
    ensures error.Some? && error.value != "" ==> r == error.value
  {
    if error.Some? && error.value != "" then error.value else UnknownError
  }

  /** `_errorHandling`: the error callback, when there is one, gets the
      status and the message. */
  function ErrorHandling<E>(callback: Option<E>, status: int, error: Option<string>): (r: Option<(E, int, string)>)
    ensures r.Some? <==> callback.Some?
    ensures r.Some? ==> r.value.0 == callback.value && r.value.1 == status && r.value.2 != ""
  {
    match callback
    case None => None
    case Some(cb) => Some((cb, status, ErrorMessage(error)))
  }

  // ---------------------------------------------------------------------------
  // Requests
  // ---------------------------------------------------------------------------

  /** The item as `toObject` gives it, without its id. */
  datatype ItemBody = ItemBody(
    orderPreference: string, name: string, address: string,
    webLink: Option<string>, placeId: Option<string>, iconUri: string, isFree: bool,
    phone: Option<string>, callForAppointment: bool, categoryCode: string,
    languageCodes: seq<string>, openingHours: seq<ClientPeriod.Period>)

  /** What a request carries in its body. */
  datatype Body = ItemFields(fields: ItemBody) | IconImage(image: string) | Credentials(user: string, password: string)

  /** `toObject` followed by `delete itemObj.itemId`. */
  function BodyOf(item: Item): (r: ItemBody)
    ensures WithId(r, item.itemId) == ToObject(item)
  {
    var o := ToObject(item);
    ItemBody(o.orderPreference, o.name, o.address, o.webLink, o.placeId, o.iconUri, o.isFree,
             o.phone, o.callForAppointment, o.categoryCode, o.languageCodes, o.openingHours)
  }

  /** The state object with the id put back. */
  function WithId(b: ItemBody, itemId: int): ItemObject
  {
    ItemObject(itemId, b.orderPreference, b.name, b.address, b.webLink, b.placeId, b.iconUri,
               b.isFree, b.phone, b.callForAppointment, b.categoryCode, b.languageCodes, b.openingHours)
  }

  /** Two items with the same body differ at most in their id. */
  lemma BodyOfLosesOnlyId(x: Item, y: Item)
    ensures BodyOf(x) == BodyOf(y) <==> x == y.(itemId := x.itemId)
  {
    if BodyOf(x) == BodyOf(y) {
      OrderForVal(x.orderPreference);
      OrderForVal(y.orderPreference);
      assert x.orderPreference == y.orderPreference;
    }
  }

  /** The calls the service offers, with what identifies their target. */
  datatype Call =
    | GetCategories(itemType: string)
    | GetItems(categoryCode: string)
    | DeleteItem(itemId: int)
    | SaveItem(item: Item)
    | ChangeIcon(itemId: int, image: string)
    | CreateItem(item: Item)
    | Login(user: string, password: string)
    | Logout

  /** The HTTP method of each call. */
  function MethodOf(c: Call): (r: string)
    ensures r == "GET" <==> c.GetCategories? || c.GetItems?
    ensures r == "DELETE" <==> c.DeleteItem? || c.Logout?
    ensures r == "PUT" <==> c.SaveItem?
    ensures r == "POST" <==> c.ChangeIcon? || c.CreateItem? || c.Login?
  {
    match c
    case GetCategories(_) => "GET"
    case GetItems(_) => "GET"
    case DeleteItem(_) => "DELETE"
    case SaveItem(_) => "PUT"
    case ChangeIcon(_, _) => "POST"
    case CreateItem(_) => "POST"
    case Login(_, _) => "POST"
    case Logout => "DELETE"
  }

  /** The relative URL of each call. */
  function PathOf(c: Call): string
  {
    match c
    case GetCategories(t) => CategoriesUrl(t)
    case GetItems(code) => ItemsInCategoryUrl(code)
    case DeleteItem(id) => SingleItemUrl(id)
    case SaveItem(item) => SingleItemUrl(item.itemId)
    case ChangeIcon(id, _) => SingleItemIconUrl(id)
    case CreateItem(_) => AllItemsUrl
    case Login(_, _) => LoginUrl
    case Logout => LoginUrl
  }

  /** The body of each call: none for reading and deleting. */
  function PayloadOf(c: Call): (r: Option<Body>)
    ensures r.None? <==> MethodOf(c) == "GET" || MethodOf(c) == "DELETE"
    ensures r.Some? && r.value.ItemFields? <==> c.SaveItem? || c.CreateItem?
  {
    match c
    case SaveItem(item) => Some(ItemFields(BodyOf(item)))
    case ChangeIcon(_, image) => Some(IconImage(image))
    case CreateItem(item) => Some(ItemFields(BodyOf(item)))
    case Login(user, password) => Some(Credentials(user, password))
    case _ => None
  }

  /** A save goes to the item's own URL and carries everything but the id,
      which the URL holds instead. */
  lemma SaveItemTarget(item: Item)
    ensures MethodOf(SaveItem(item)) == "PUT"
    ensures Split(PathOf(SaveItem(item)), '/') == ["items", IntToString(item.itemId)]
    ensures PayloadOf(SaveItem(item)) == Some(ItemFields(BodyOf(item)))
    ensures WithId(BodyOf(item), item.itemId) == ToObject(item)
  {
    SingleItemUrlPlain(item.itemId);
  }

  /** Every call is sent with no parameters of its own: only the shared ones. */
  function Send(a: Ajax.Adapter, c: Call): (r: (Ajax.HttpRequest<Body>, Ajax.Adapter))
    requires Ajax.Valid(a)
    ensures Ajax.Valid(r.1)
    ensures r.0.httpMethod == MethodOf(c) && r.0.body == PayloadOf(c)
    ensures r.0.url == Ajax.RequestUrl(a.baseUrl, PathOf(c), Ajax.UrlParams([], a.shared))
    ensures r.0.authorization == a.header && r.1 == Ajax.Issue(a)
  {
    Ajax.Request(a, MethodOf(c), PathOf(c), [], PayloadOf(c))
  }

  // ---------------------------------------------------------------------------
  // Session
  // ---------------------------------------------------------------------------

  /** The token becomes the bearer header for every request and a shared
      parameter. */
  function WithToken(a: Ajax.Adapter, token: string): (r: Ajax.Adapter)
    requires Ajax.Valid(a)
    ensures Ajax.Valid(r)
    ensures r.header == Some("Bearer" + [' '] + token) && !r.justOnce
    ensures Ajax.Lookup(r.shared, TokenKey) == Some(token)
    ensures r.baseUrl == a.baseUrl && r.ongoing == a.ongoing && r.issued == a.issued
  {
    var b := Ajax.SetAuthorisation(a, Ajax.Bearer, token, None, false, s => s);
    Ajax.PutKeepsUnique(a.shared, TokenKey, token);
    Ajax.PutLookup(a.shared, TokenKey, token, "out");
    b.(shared := Ajax.Put(a.shared, TokenKey, token))
  }

  /** The constructor: the adapter for `<resources>/api_v1`, and with a
      token the bearer header and the token parameter. */
  function NewService(resourceBaseUrl: string, token: Option<string>, noCache: bool): (r: Ajax.Adapter)
    ensures Ajax.Valid(r)
    ensures r.baseUrl == Ajax.CleanBaseUrl(resourceBaseUrl + "/" + ApiBaseUrl) && r.ongoing == []
    ensures token.None? ==> r.header == None
    ensures token.Some? ==> r.header == Some("Bearer" + [' '] + token.value) && !r.justOnce
    ensures token.Some? ==> Ajax.Lookup(r.shared, TokenKey) == Some(token.value)
  {
    var a := Ajax.NewAdapter(resourceBaseUrl + "/" + ApiBaseUrl, noCache);
    match token
    case None => a
    case Some(t) => WithToken(a, t)
  }

  /** `login`: the credentials go as a `Basic` header for this request only,
      so after it the adapter has no header at all. */
  function StartLogin(a: Ajax.Adapter, user: string, password: string, btoa: string -> string): (r: (Ajax.HttpRequest<Body>, Ajax.Adapter))
    requires Ajax.Valid(a)
    ensures Ajax.Valid(r.1)
    ensures r.0.authorization == Some("Basic" + [' '] + btoa(user + ":" + password))
    ensures r.0.body == Some(Credentials(user, password)) && r.0.httpMethod == "POST"
    ensures r.1.header == None
  {
    LoginRequest(a, user, password, btoa);
    Send(Ajax.SetAuthorisation(a, Ajax.Basic, user, Some(password), true, btoa), Login(user, password))
  }

  lemma LoginRequest(a: Ajax.Adapter, user: string, password: string, btoa: string -> string)
    requires Ajax.Valid(a)
    ensures var b := Ajax.SetAuthorisation(a, Ajax.Basic, user, Some(password), true, btoa);
      && Ajax.Valid(b)
      && var r := Send(b, Login(user, password));
      && Ajax.Valid(r.1)
      && r.0.authorization == Some("Basic" + [' '] + btoa(user + ":" + password))
      && r.0.body == Some(Credentials(user, password)) && r.0.httpMethod == "POST"
      && r.1.header == None
  {
    var b := Ajax.SetAuthorisation(a, Ajax.Basic, user, Some(password), true, btoa);
    BasicOnce(a, user, password, btoa);
    SendOnce(b, Login(user, password));
    LoginCall(user, password);
  }

  lemma LoginCall(user: string, password: string)
    ensures MethodOf(Login(user, password)) == "POST"
    ensures PayloadOf(Login(user, password)) == Some(Credentials(user, password))
  {
  }

  /** A header set for one request goes with the next request and is then
      dropped. */
  lemma SendOnce(b: Ajax.Adapter, c: Call)
    requires Ajax.Valid(b) && b.justOnce
    ensures var r := Send(b, c);
      Ajax.Valid(r.1) && r.0.authorization == b.header && r.1.header == None
      && r.0.httpMethod == MethodOf(c) && r.0.body == PayloadOf(c)
  {
  }

  /** The `Basic` header of a login is set for one request. */
  lemma BasicOnce(a: Ajax.Adapter, user: string, password: string, btoa: string -> string)
    requires Ajax.Valid(a)
    ensures var b := Ajax.SetAuthorisation(a, Ajax.Basic, user, Some(password), true, btoa);
      Ajax.Valid(b) && b.justOnce && b.header == Some("Basic" + [' '] + btoa(user + ":" + password))
  {
    var b := Ajax.SetAuthorisation(a, Ajax.Basic, user, Some(password), true, btoa);
    assert b.shared == a.shared && b.ongoing == a.ongoing && b.issued == a.issued;
    assert TemplateText(Some(password)) == password;
  }

  /** `_loginSuccess`. */
  function LoginSuccess(a: Ajax.Adapter, token: string): (r: Ajax.Adapter)
    requires Ajax.Valid(a)
    ensures Ajax.Valid(r)
    ensures r.header == Some("Bearer" + [' '] + token) && Ajax.Lookup(r.shared, TokenKey) == Some(token)
  {
    WithToken(a, token)
  }

  /** After a login, every request carries the received token until the
      session ends. */
  lemma LoggedInRequests(a: Ajax.Adapter, user: string, password: string, btoa: string -> string, token: string, n: nat)
    requires Ajax.Valid(a)
    ensures var b := LoginSuccess(StartLogin(a, user, password, btoa).1, token);
      forall i | 0 <= i < n :: Ajax.HeadersOf(b, n)[i] == Some("Bearer" + [' '] + token)
  {
    var b := LoginSuccess(StartLogin(a, user, password, btoa).1, token);
    Ajax.LastingHeader(b, n);
  }

  /** `delete sharedParams[k]`. */
  function Forget(ps: Ajax.Params, k: string): (r: Ajax.Params)
    ensures Ajax.Lookup(r, k) == None
    ensures forall i | 0 <= i < |r| :: r[i] in ps
  {
    if |ps| == 0 then []
    else if ps[0].0 == k then Forget(ps[1..], k)
    else [ps[0]] + Forget(ps[1..], k)
  }

  /** Forgetting a key leaves every other key as it was. */
  lemma {:induction false} ForgetLookup(ps: Ajax.Params, k: string, j: string)
    requires j != k
    ensures Ajax.Lookup(Forget(ps, k), j) == Ajax.Lookup(ps, j)
  {
    if |ps| > 0 {
      ForgetLookup(ps[1..], k, j);
    }
  }

  lemma {:induction false} ForgetKeepsUnique(ps: Ajax.Params, k: string)
    requires Ajax.UniqueKeys(ps)
    ensures Ajax.UniqueKeys(Forget(ps, k))
  {
    if |ps| > 0 {
      assert Ajax.Keys(ps[1..]) == Ajax.Keys(ps)[1..];
      ForgetKeepsUnique(ps[1..], k);
      if ps[0].0 != k {
        var rest := Forget(ps[1..], k);
        KeysIn(rest, ps[1..]);
        assert ps[0].0 !in Ajax.Keys(ps[1..]);
        var ks := Ajax.Keys([ps[0]] + rest);
        assert ks == [ps[0].0] + Ajax.Keys(rest);
        forall x, y | 0 <= x < y < |ks| ensures ks[x] != ks[y] {
          if x == 0 {
            assert ks[y] in Ajax.Keys(rest);
          }
        }
      }
    }
  }

  /** Keys of a sub-list are keys of the list. */
  lemma {:induction false} KeysIn(sub: Ajax.Params, ps: Ajax.Params)
    requires forall i | 0 <= i < |sub| :: sub[i] in ps
    ensures forall k | k in Ajax.Keys(sub) :: k in Ajax.Keys(ps)
  {
    forall k | k in Ajax.Keys(sub) ensures k in Ajax.Keys(ps) {
      var i :| 0 <= i < |sub| && Ajax.Keys(sub)[i] == k;
      var j :| 0 <= j < |ps| && ps[j] == sub[i];
      assert Ajax.Keys(ps)[j] == k;
    }
  }

  /** `logout` sends `DELETE session` with the current authorisation. */
  function StartLogout(a: Ajax.Adapter): (r: (Ajax.HttpRequest<Body>, Ajax.Adapter))
    requires Ajax.Valid(a)
    ensures Ajax.Valid(r.1) && r.0.httpMethod == "DELETE" && r.0.authorization == a.header
  {
    Send(a, Logout)
  }

  /** `_logoutSuccess` as written: the header is cancelled and the token
      parameter set to `undefined`, which every later URL then carries as
      the text `undefined`. */
  function LogoutSuccessAsWritten(a: Ajax.Adapter): (r: Ajax.Adapter)
    requires Ajax.Valid(a)
    ensures Ajax.Valid(r) && r.header == None
    ensures Ajax.Lookup(r.shared, TokenKey) == Some("undefined")
  {
    Ajax.PutKeepsUnique(a.shared, TokenKey, "undefined");
    Ajax.PutLookup(a.shared, TokenKey, "undefined", "out");
    Ajax.CancelAuthorisation(a).(shared := Ajax.Put(a.shared, TokenKey, "undefined"))
  }

  /** `_logoutSuccess` as intended: the header is cancelled and the token
      parameter removed; the other shared parameters stay. */
  function LogoutSuccess(a: Ajax.Adapter): (r: Ajax.Adapter)
    requires Ajax.Valid(a)
    ensures Ajax.Valid(r) && r.header == None
    ensures Ajax.Lookup(r.shared, TokenKey) == None
  {
    ForgetKeepsUnique(a.shared, TokenKey);
    ForgetLookup(a.shared, TokenKey, "out");
    Ajax.CancelAuthorisation(a).(shared := Forget(a.shared, TokenKey))
  }

  /** As written, a request after logging out carries no header but
      `token=undefined`, and the API takes `undefined` for a session token
      (it holds the hex digits `d`, `e` and `f`) instead of treating the
      caller as anonymous. */
  lemma LogoutAsWrittenSendsToken(a: Ajax.Adapter, server: SessionManager.Server, query: map<string, string>)
    requires Ajax.Valid(a)
    requires SessionManager.IsEmpty(SessionManager.AuthorizationHeader(server))
    requires SessionManager.TokenParam in query
    requires Some(query[SessionManager.TokenParam]) == Ajax.Lookup(LogoutSuccessAsWritten(a).shared, TokenKey)
    ensures SessionManager.GetToken(server, query) == Ok(Some("undefined"))
  {
    UndefinedHasHex();
    SessionManager.ParamTokenVerbatim(server, query);
  }

  /** The text `undefined` holds a hex digit. */
  lemma UndefinedHasHex()
    ensures SessionManager.ContainsHex("undefined")
  {
    assert Common.IsHexDigit("undefined"[2]);
  }

  /** As intended, a request after logging out carries neither header nor
      token, and the API finds no token and no error. */
  lemma LogoutLeavesNoToken(a: Ajax.Adapter, server: SessionManager.Server, query: map<string, string>)
    requires Ajax.Valid(a)
    requires SessionManager.IsEmpty(SessionManager.AuthorizationHeader(server))
    requires SessionManager.TokenParam in query ==>
      Some(query[SessionManager.TokenParam]) == Ajax.Lookup(LogoutSuccess(a).shared, TokenKey)
    ensures SessionManager.GetToken(server, query) == Ok(None)
  {
    SessionManager.NoTokenAnywhere(server, query);
  }

  // ---------------------------------------------------------------------------
  // Deleting an item
  // ---------------------------------------------------------------------------

  /** The callbacks the success handler of `deleteItem` calls, as written:
      the arrow function returns the callback without calling it. */
  function DeleteItemSuccessAsWritten<C>(callback: C): (r: seq<C>)
    ensures callback !in r
  {
    []
  }

  /** As intended: the callback is called once. */
  function DeleteItemSuccess<C>(callback: C): (r: seq<C>)
    ensures r == [callback]
  {
    [callback]
  }

  /** The caller of `deleteItem` is never told that the item was deleted;
      with the intended handler it is, exactly once. */
  lemma DeleteItemCallbackLost<C>(callback: C)
    ensures |DeleteItemSuccessAsWritten(callback)| == 0
    ensures multiset(DeleteItemSuccess(callback))[callback] == 1
  {
  }
}
