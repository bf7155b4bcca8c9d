/** The API's router: the registered URL patterns, each with the transactions it
    serves, tried in order; the first pattern that matches decides. */
module UrlMatchers {
  import opened Common
  import opened HttpMethods
  import TM = TransactionMaps
  import opened UrlPatterns

  const HttpNotFound := 404

  datatype RoutingError = UnknownResourceUri(status: int, url: string)

  /** The first pattern, in order, that matches; `None` when none does. */
  function FirstMatch(routes: seq<UrlPattern>, m: HttpMethod, url: string, get: map<string, string>): (r: Option<Dispatch>)
    ensures r.None? <==> forall i | 0 <= i < |routes| :: Match(routes[i], m, url, get).None?
    ensures r.Some? ==> exists i | 0 <= i < |routes| ::
      && Match(routes[i], m, url, get) == r
      && forall j | 0 <= j < i :: Match(routes[j], m, url, get).None?
  {
    if |routes| == 0 then None
    else
      var d := Match(routes[0], m, url, get);
      if d.Some? then d
      else
        var r := FirstMatch(routes[1..], m, url, get);
        FirstMatchShift(routes, m, url, get, r);
        r
  }

  /** What the rest of the table answers carries over to the whole table
      when its first route does not match. */
  lemma FirstMatchShift(routes: seq<UrlPattern>, m: HttpMethod, url: string, get: map<string, string>, r: Option<Dispatch>)
    requires |routes| > 0 && Match(routes[0], m, url, get).None?
    requires r.None? <==> forall i | 0 <= i < |routes| - 1 :: Match(routes[1..][i], m, url, get).None?
    requires r.Some? ==> exists i | 0 <= i < |routes| - 1 ::
      && Match(routes[1..][i], m, url, get) == r
      && forall j | 0 <= j < i :: Match(routes[1..][j], m, url, get).None?
    ensures r.None? <==> forall i | 0 <= i < |routes| :: Match(routes[i], m, url, get).None?
    ensures r.Some? ==> exists i | 0 <= i < |routes| ::
      && Match(routes[i], m, url, get) == r
      && forall j | 0 <= j < i :: Match(routes[j], m, url, get).None?
  {
    if r.Some? {
      var i :| 0 <= i < |routes| - 1
        && Match(routes[1..][i], m, url, get) == r
        && forall j | 0 <= j < i :: Match(routes[1..][j], m, url, get).None?;
      assert forall j | 0 <= j < i + 1 :: Match(routes[j], m, url, get).None? by {
        forall j | 0 <= j < i + 1 ensures Match(routes[j], m, url, get).None? {
          if j > 0 { assert routes[j] == routes[1..][j - 1]; }
        }
      }
      assert Match(routes[i + 1], m, url, get) == r;
    } else {
      forall i | 0 <= i < |routes| ensures Match(routes[i], m, url, get).None? {
        if i > 0 { assert routes[i] == routes[1..][i - 1]; }
      }
    }
  }

  // ---------------------------------------------------------------------------
  // The registration table
  // ---------------------------------------------------------------------------

  // `/item-types/:itemType<str>/categories/` and `/categories/:categoryCode<str>/items/`,
  // written piece by piece: slash · prefix · ':' name '<' type '>' suffix · slash.
  const CategoriesRaw := "/" + ("item-types/" + ":" + "itemType" + "<" + "str" + ">" + "/categories") + "/"
  const CategoryItemsRaw := "/" + ("categories/" + ":" + "categoryCode" + "<" + "str" + ">" + "/items") + "/"
  const ItemRaw := "/items/:itemId<int>"
  const ItemsRaw := "/items/"

  const CategoriesPattern := CompiledPattern("item-types/", [Param("itemType", Str, "/categories")])
  const CategoryItemsPattern := CompiledPattern("categories/", [Param("categoryCode", Str, "/items")])
  const ItemPattern := CompiledPattern("items/", [Param("itemId", Int, "")])
  const ItemsPattern := CompiledPattern("items", [])

  /** A fresh map with one transaction class registered for one method. */
  function Serving(m: HttpMethod, className: string): (r: TM.TransactionMap)
    ensures TM.Get(r, m) == Some(className)
    ensures forall n :: n != m ==> !TM.ManagesMethod(r, n)
  {
    TM.Put(TM.Empty(), m, TM.TransactionClass(className, TM.Transaction)).value
  }

  function Routes(): seq<UrlPattern>
  {
    [ UrlPattern(CategoriesPattern, Serving(Get, "GetCategoriesTransaction")),
      UrlPattern(CategoryItemsPattern, Serving(Get, "GetItemsTransaction")),
      UrlPattern(ItemPattern, Serving(Delete, "DeleteItemTransaction")),
      UrlPattern(ItemsPattern, Serving(Post, "CreateItemTransaction")) ]
  }

  // The pattern texts spelled as slash · prefix · ':' name '<' type '>' suffix · slash.
  lemma CategoriesRawParts()
    ensures CategoriesRaw == "/" + ("item-types/" + ":" + "itemType" + "<" + Str.Name() + ">" + "/categories") + "/"
  {
    assert Str.Name() == "str";
  }

  lemma CategoryItemsRawParts()
    ensures CategoryItemsRaw == "/" + ("categories/" + ":" + "categoryCode" + "<" + Str.Name() + ">" + "/items") + "/"
  {
    assert Str.Name() == "str";
  }

  lemma ItemRawParts()
    ensures ItemRaw == "/" + ("items/" + ":" + "itemId" + "<" + Int.Name() + ">" + "") + ""
  {
  }

  lemma ItemsRawParts()
    ensures ItemsRaw == "/" + "items" + "/"
  {
  }

  lemma CategoriesRawTrimmed(raw: string)
    requires raw == CategoriesRaw
    ensures TrimUrl(raw) == "item-types/" + ":" + "itemType" + "<" + Str.Name() + ">" + "/categories"
  {
    CategoriesRawParts();
    TrimSlashes(raw, "/", "item-types/" + ":" + "itemType" + "<" + Str.Name() + ">" + "/categories", "/");
  }

  lemma CategoryItemsRawTrimmed(raw: string)
    requires raw == CategoryItemsRaw
    ensures TrimUrl(raw) == "categories/" + ":" + "categoryCode" + "<" + Str.Name() + ">" + "/items"
  {
    CategoryItemsRawParts();
    TrimSlashes(raw, "/", "categories/" + ":" + "categoryCode" + "<" + Str.Name() + ">" + "/items", "/");
  }

  lemma ItemRawTrimmed(raw: string)
    requires raw == ItemRaw
    ensures TrimUrl(raw) == "items/" + ":" + "itemId" + "<" + Int.Name() + ">" + ""
  {
    ItemRawParts();
    TrimSlashes(raw, "/", "items/" + ":" + "itemId" + "<" + Int.Name() + ">" + "", "");
  }

  lemma ItemsRawTrimmed(raw: string)
    requires raw == ItemsRaw
    ensures TrimUrl(raw) == "items"
  {
    ItemsRawParts();
    TrimSlashes(raw, "/", "items", "/");
  }

  lemma CategoriesTrimmedCompiles(raw: string)
    requires TrimUrl(raw) == "item-types/" + ":" + "itemType" + "<" + Str.Name() + ">" + "/categories"
    ensures ParsePattern(raw) == Ok(CategoriesPattern)
  {
    ParsePatternOneParam(raw, "item-types/", "itemType", Str, "/categories");
  }

  lemma CategoryItemsTrimmedCompiles(raw: string)
    requires TrimUrl(raw) == "categories/" + ":" + "categoryCode" + "<" + Str.Name() + ">" + "/items"
    ensures ParsePattern(raw) == Ok(CategoryItemsPattern)
  {
    ParsePatternOneParam(raw, "categories/", "categoryCode", Str, "/items");
  }

  lemma ItemTrimmedCompiles(raw: string)
    requires TrimUrl(raw) == "items/" + ":" + "itemId" + "<" + Int.Name() + ">" + ""
    ensures ParsePattern(raw) == Ok(ItemPattern)
  {
    ParsePatternOneParam(raw, "items/", "itemId", Int, "");
  }

  lemma ItemsTrimmedCompiles(raw: string)
    requires TrimUrl(raw) == "items"
    ensures ParsePattern(raw) == Ok(ItemsPattern)
  {
    ParsePatternWithoutParams(raw);
  }

  /** The table's compiled patterns are what the registered pattern texts compile to. */
  lemma RegisteredPatternsCompile()
    ensures ParsePattern(CategoriesRaw) == Ok(CategoriesPattern)
    ensures ParsePattern(CategoryItemsRaw) == Ok(CategoryItemsPattern)
    ensures ParsePattern(ItemRaw) == Ok(ItemPattern)
    ensures ParsePattern(ItemsRaw) == Ok(ItemsPattern)
  {
    CategoriesRawTrimmed(CategoriesRaw);
    CategoriesTrimmedCompiles(CategoriesRaw);
    CategoryItemsRawTrimmed(CategoryItemsRaw);
    CategoryItemsTrimmedCompiles(CategoryItemsRaw);
    ItemRawTrimmed(ItemRaw);
    ItemTrimmedCompiles(ItemRaw);
    ItemsRawTrimmed(ItemsRaw);
    ItemsTrimmedCompiles(ItemsRaw);
  }

  /** `match`: the first registered pattern that yields a transaction, or a
      404 error; `RouteIn` states what it gives. */
  function Route(m: HttpMethod, url: string, get: map<string, string>): Result<Dispatch, RoutingError>
  {
    RouteIn(Routes(), m, url, get)
  }

  /** Routing over a table: the first pattern that yields a transaction, or a
      404 error naming the URL. */
  function RouteIn(routes: seq<UrlPattern>, m: HttpMethod, url: string, get: map<string, string>): (r: Result<Dispatch, RoutingError>)
    ensures r.Err? <==> forall i | 0 <= i < |routes| :: Match(routes[i], m, url, get).None?
    ensures r.Err? ==> r.error == UnknownResourceUri(HttpNotFound, url)
    ensures r.Ok? ==> exists i | 0 <= i < |routes| ::
      && Match(routes[i], m, url, get) == Some(r.value)
      && forall j | 0 <= j < i :: Match(routes[j], m, url, get).None?
  {
    match FirstMatch(routes, m, url, get)
    case None => Err(UnknownResourceUri(HttpNotFound, url))
    case Some(d) => Ok(d)
  }

  /** The route at index `k` decides when it matches and every earlier one does not. */
  lemma {:induction false} FirstMatchAt(routes: seq<UrlPattern>, k: nat, m: HttpMethod, url: string, get: map<string, string>, d: Dispatch)
    requires k < |routes| && Match(routes[k], m, url, get) == Some(d)
    requires forall j | 0 <= j < k :: Match(routes[j], m, url, get).None?
    ensures FirstMatch(routes, m, url, get) == Some(d)
    decreases k
  {
    if k > 0 {
      assert forall j | 0 <= j < k - 1 :: routes[1..][j] == routes[j + 1];
      FirstMatchAt(routes[1..], k - 1, m, url, get, d);
    }
  }

  /** Routing over a table answers what its route at index `k` gives when
      that route matches and no earlier one does. */
  lemma RouteAt(routes: seq<UrlPattern>, k: nat, m: HttpMethod, url: string, get: map<string, string>, d: Dispatch)
    requires k < |routes| && Match(routes[k], m, url, get) == Some(d)
    requires forall j | 0 <= j < k :: Match(routes[j], m, url, get).None?
    ensures RouteIn(routes, m, url, get) == Ok(d)
  {
    FirstMatchAt(routes, k, m, url, get, d);
  }

  /** What the table holds, entry by entry. */
  lemma RoutesTable(rs: seq<UrlPattern>)
    requires rs == Routes()
    ensures |rs| == 4
    ensures rs[0].compiled == CategoriesPattern && TM.Get(rs[0].transactions, Get) == Some("GetCategoriesTransaction")
    ensures rs[1].compiled == CategoryItemsPattern && TM.Get(rs[1].transactions, Get) == Some("GetItemsTransaction")
    ensures rs[2].compiled == ItemPattern && TM.Get(rs[2].transactions, Delete) == Some("DeleteItemTransaction")
    ensures rs[3].compiled == ItemsPattern && TM.Get(rs[3].transactions, Post) == Some("CreateItemTransaction")
    ensures forall n :: TM.ManagesMethod(rs[0].transactions, n) <==> n == Get
    ensures forall n :: TM.ManagesMethod(rs[1].transactions, n) <==> n == Get
    ensures forall n :: TM.ManagesMethod(rs[2].transactions, n) <==> n == Delete
    ensures forall n :: TM.ManagesMethod(rs[3].transactions, n) <==> n == Post
  {
  }

  lemma NoneServes(routes: seq<UrlPattern>, m: HttpMethod, url: string, get: map<string, string>)
    requires forall i | 0 <= i < |routes| :: !TM.ManagesMethod(routes[i].transactions, m)
    ensures FirstMatch(routes, m, url, get) == None
  {
  }

  /** Updating an item is not registered: every PUT request is a 404. */
  lemma PutIsNotRouted(url: string, get: map<string, string>)
    ensures Route(Put, url, get) == Err(UnknownResourceUri(HttpNotFound, url))
  {
    RoutesTable(Routes());
    NoneServes(Routes(), Put, url, get);
  }

  /** A URL that starts and ends with kept characters is its own trim. */
  lemma UrlKept(url: string, a: string, v: string, b: string)
    requires url == a + v + b && |a| > 0 && !IsUrlTrimChar(a[0])
    requires (|b| > 0 && !IsUrlTrimChar(b[|b| - 1])) || (|b| == 0 && |v| > 0 && !IsUrlTrimChar(v[|v| - 1]))
    ensures TrimUrl(url) == a + v + b
  {
    if |b| == 0 {
      assert url[|url| - 1] == v[|v| - 1];
    }
    TrimKeeps(url, IsUrlTrimChar);
  }

  lemma DeleteItemMatches(rs: seq<UrlPattern>, id: string, get: map<string, string>)
    requires rs == Routes() && IsWord(Int, id)
    ensures Match(rs[2], Delete, "items/" + id, get) == Some(Dispatch("DeleteItemTransaction", get["itemId" := id]))
  {
    RoutesTable(rs);
    assert IsDigit(id[|id| - 1]);
    UrlKept("items/" + id, "items/", id, "");
    MatchOneParam(rs[2], Delete, "items/" + id, get, id);
  }

  lemma OnlyItemServesDelete(rs: seq<UrlPattern>, url: string, get: map<string, string>)
    requires rs == Routes()
    ensures forall j | 0 <= j < 2 :: Match(rs[j], Delete, url, get).None?
  {
    RoutesTable(rs);
  }

  /** DELETE `items/<digits>` reaches DeleteItemTransaction with the id captured. */
  lemma DeleteItemRoute(id: string, get: map<string, string>)
    requires IsWord(Int, id)
    ensures Route(Delete, "items/" + id, get) == Ok(Dispatch("DeleteItemTransaction", get["itemId" := id]))
  {
    var rs := Routes();
    DeleteItemMatches(rs, id, get);
    OnlyItemServesDelete(rs, "items/" + id, get);
    RouteAt(rs, 2, Delete, "items/" + id, get, Dispatch("DeleteItemTransaction", get["itemId" := id]));
  }

  /** POST `items` (slashes and blanks around it allowed) reaches CreateItemTransaction
      with the parameters untouched. */
  lemma CreateItemRoute(url: string, get: map<string, string>)
    requires TrimUrl(url) == "items"
    ensures Route(Post, url, get) == Ok(Dispatch("CreateItemTransaction", get))
  {
    var rs := Routes();
    assert AfterPrefix(rs[3].compiled, url) == "";
    assert Decomposes("", [], []);
    MatchCaptures(rs[3], Post, url, get, []);
    assert get + map[] == get;
    assert forall j | 0 <= j < 3 :: !TM.ManagesMethod(rs[j].transactions, Post);
    RouteAt(rs, 3, Post, url, get, Dispatch("CreateItemTransaction", get));
  }

  /** GET `item-types/<t>/categories` reaches GetCategoriesTransaction with the type captured. */
  lemma CategoriesRoute(t: string, get: map<string, string>)
    requires IsWord(Str, t)
    ensures Route(Get, "item-types/" + t + "/categories", get)
         == Ok(Dispatch("GetCategoriesTransaction", get["itemType" := t]))
  {
    var url := "item-types/" + t + "/categories";
    var rs := Routes();
    RoutesTable(rs);
    UrlKept(url, "item-types/", t, "/categories");
    MatchOneParam(rs[0], Get, url, get, t);
    RouteAt(rs, 0, Get, url, get, Dispatch("GetCategoriesTransaction", get["itemType" := t]));
  }

  lemma CategoryItemsMatches(rs: seq<UrlPattern>, c: string, get: map<string, string>)
    requires rs == Routes() && IsWord(Str, c)
    ensures |rs| > 1
    ensures Match(rs[0], Get, "categories/" + c + "/items", get).None?
    ensures Match(rs[1], Get, "categories/" + c + "/items", get)
         == Some(Dispatch("GetItemsTransaction", get["categoryCode" := c]))
  {
    var url := "categories/" + c + "/items";
    RoutesTable(rs);
    UrlKept(url, "categories/", c, "/items");
    assert TrimUrl(url)[0] == 'c' && CategoriesPattern.prefix[0] == 'i';
    PrefixMismatch(rs[0], Get, url, get);
    MatchOneParam(rs[1], Get, url, get, c);
  }

  /** A table whose first route does not match answers what its second gives. */
  lemma SecondRoute(routes: seq<UrlPattern>, m: HttpMethod, url: string, get: map<string, string>, d: Dispatch)
    requires |routes| > 1 && Match(routes[0], m, url, get).None? && Match(routes[1], m, url, get) == Some(d)
    ensures RouteIn(routes, m, url, get) == Ok(d)
  {
    RouteAt(routes, 1, m, url, get, d);
  }

  /** GET `categories/<c>/items` reaches GetItemsTransaction with the code captured. */
  lemma CategoryItemsRoute(c: string, get: map<string, string>)
    requires IsWord(Str, c)
    ensures Route(Get, "categories/" + c + "/items", get)
         == Ok(Dispatch("GetItemsTransaction", get["categoryCode" := c]))
  {
    var rs := Routes();
    CategoryItemsMatches(rs, c, get);
    SecondRoute(rs, Get, "categories/" + c + "/items", get, Dispatch("GetItemsTransaction", get["categoryCode" := c]));
  }

  lemma PrefixMismatch(p: UrlPattern, m: HttpMethod, url: string, get: map<string, string>)
    requires |p.compiled.prefix| > 0 && |TrimUrl(url)| > 0 && TrimUrl(url)[0] != p.compiled.prefix[0]
    ensures Match(p, m, url, get).None?
  {
  }
}
