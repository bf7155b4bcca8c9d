/** The administration panel's API service: one request at a time through
    the single-slot adapter, one caller callback, and a request id that lets
    a caller cancel its request while it is the latest one. */
module PanelApiService {
  import opened Common
  import opened ClientItem
  import Ajax = ApiAjaxAdapter
  import Legacy = LegacyAjaxAdapter
  import Svc = ApiService

  /** Which success handler the adapter holds. */
  datatype Handler = OnCategories | OnItems

  /** An answer as the two handlers read it: as a list of categories and as
      a list of item objects (`null` when absent). */
  datatype Answer = Answer(asCategories: Option<seq<Svc.Category>>, asItems: Option<seq<ItemObject>>)

  /** What a caller's callback is given. */
  datatype Outcome = CategoriesByCode(categories: map<string, Svc.Category>) | ItemList(items: seq<Item>)

  /** The service: the adapter, the caller's callback waiting for an
      answer, and the id of the latest request (-1 before the first). */
  datatype Panel<C> = Panel(adapter: Legacy.Legacy<Handler>, callback: Option<C>, currentId: int)

  function NewPanel<C>(resourceBaseUrl: string): (p: Panel<C>)
    ensures p.currentId == -1 && p.callback == None && p.adapter.onSuccess == None
    ensures p.adapter.baseUrl == Ajax.CleanBaseUrl(resourceBaseUrl + "/" + Svc.ApiBaseUrl)
  {
    Panel(Legacy.NewLegacy(resourceBaseUrl + "/" + Svc.ApiBaseUrl), None, -1)
  }

  /** `getCategories` and `getItems`: the callback is kept, the request goes
      out with the matching handler (aborting any request in flight), and
      the next id is returned. */
  function Start<C>(p: Panel<C>, handler: Handler, path: string, callback: C): (r: (int, Legacy.Sent, Panel<C>))
    ensures r.0 == p.currentId + 1 && r.2.currentId == r.0
    ensures r.2.callback == Some(callback) && r.2.adapter.onSuccess == Some(handler)
    ensures r.1.abortedPrevious <==> p.adapter.onSuccess.Some?
    ensures r.1.url == Ajax.RequestUrl(p.adapter.baseUrl, path, Legacy.UrlParams([]))
    ensures r.2.adapter.baseUrl == p.adapter.baseUrl
  {
    Legacy.UrlParamsAgreeWithoutOthers([]);
    var (sent, adapter) := Legacy.Get(p.adapter, path, [], Some(handler));
    (p.currentId + 1, sent.value, Panel(adapter, Some(callback), p.currentId + 1))
  }

  function GetCategories<C>(p: Panel<C>, itemType: string, callback: C): (r: (int, Legacy.Sent, Panel<C>))
    ensures r.0 == p.currentId + 1 && r.2.callback == Some(callback)
    ensures r.2.adapter.onSuccess == Some(OnCategories)
    ensures r.1.url == Ajax.RequestUrl(p.adapter.baseUrl, Svc.CategoriesUrl(itemType), Legacy.UrlParams([]))
  {
    Start(p, OnCategories, Svc.CategoriesUrl(itemType), callback)
  }

  function GetItems<C>(p: Panel<C>, categoryCode: string, callback: C): (r: (int, Legacy.Sent, Panel<C>))
    ensures r.0 == p.currentId + 1 && r.2.callback == Some(callback)
    ensures r.2.adapter.onSuccess == Some(OnItems)
    ensures r.1.url == Ajax.RequestUrl(p.adapter.baseUrl, Svc.ItemsInCategoryUrl(categoryCode), Legacy.UrlParams([]))
  {
    Start(p, OnItems, Svc.ItemsInCategoryUrl(categoryCode), callback)
  }

  /** `cancelIfAlive`: only the latest id aborts; aborting ends the request
      in flight with status 0, which empties the adapter's slot. */
  function CancelIfAlive<C>(p: Panel<C>, requestId: int): (r: (bool, Panel<C>))
    ensures r.0 <==> requestId == p.currentId
    ensures !r.0 ==> r.1 == p
    ensures r.0 ==> r.1 == p.(adapter := p.adapter.(onSuccess := None))
  {
    if requestId == p.currentId then
      (true, p.(adapter := Legacy.Finish<Handler, Answer>(p.adapter, 0, Answer(None, None)).1))
    else (false, p)
  }

  /** `_categoriesSuccess` and `_itemsSuccess`: with a callback waiting, it
      is taken out of the service and then called with the answer read by
      the handler; without one nothing happens. */
  function Deliver<C>(p: Panel<C>, handler: Handler, answer: Answer): (r: (Option<(C, Outcome)>, Panel<C>))
    ensures r.1 == p.(callback := None)
    ensures r.0.Some? <==> p.callback.Some?
    ensures r.0.Some? ==> r.0.value.0 == p.callback.value
    ensures r.0.Some? ==> (r.0.value.1.CategoriesByCode? <==> handler == OnCategories)
  {
    match p.callback
    case None => (None, p)
    case Some(cb) =>
      var outcome := match handler
        case OnCategories => CategoriesByCode(Svc.CategoriesSuccess(answer.asCategories))
        case OnItems => ItemList(Svc.ItemsSuccess(answer.asItems));
      (Some((cb, outcome)), p.(callback := None))
  }

  /** The end of the request in flight: the adapter reacts to the status,
      and on success the handler it held delivers the answer. */
  function Finish<C>(p: Panel<C>, status: int, answer: Answer): (r: (Option<(C, Outcome)>, Panel<C>))
    ensures r.1.adapter.onSuccess == None
    ensures r.0.Some? ==> (status == 200 || status == 204) && p.adapter.onSuccess.Some? && p.callback == Some(r.0.value.0)
  {
    var (reaction, adapter) := Legacy.Finish(p.adapter, status, answer);
    var q := p.(adapter := adapter);
    match reaction
    case Success(handler, body) =>
      Deliver(q, handler, if body.Some? then body.value else Answer(None, None))
    case _ => (None, q)
  }

  /** Request ids go up by one from 0. */
  lemma IdsIncrease<C>(p: Panel<C>, itemType: string, categoryCode: string, cb1: C, cb2: C)
    ensures var (id1, _, q) := GetCategories(p, itemType, cb1);
      var (id2, _, _) := GetItems(q, categoryCode, cb2);
      id2 == id1 + 1 && id1 == p.currentId + 1
  {
  }

  /** An older request can no longer be cancelled once a newer one started;
      the newer one can. */
  lemma OnlyLatestCancels<C>(p: Panel<C>, itemType: string, categoryCode: string, cb1: C, cb2: C)
    ensures var (id1, _, q) := GetCategories(p, itemType, cb1);
      var (id2, _, s) := GetItems(q, categoryCode, cb2);
      CancelIfAlive(s, id1) == (false, s)
      && CancelIfAlive(s, id2).0 && CancelIfAlive(s, id2).1.adapter.onSuccess == None
  {
  }

  /** Of two requests in a row, only the second caller hears back, with the
      answer read as the second request asked. */
  lemma LatestCallerHearsBack<C>(p: Panel<C>, itemType: string, categoryCode: string, cb1: C, cb2: C, answer: Answer)
    ensures var (_, _, q) := GetCategories(p, itemType, cb1);
      var (_, _, s) := GetItems(q, categoryCode, cb2);
      Finish(s, 200, answer).0 == Some((cb2, ItemList(Svc.ItemsSuccess(answer.asItems))))
  {
  }

  /** A caller hears back at most once: after one answer, another end of
      request calls nobody. */
  lemma AnsweredOnce<C>(p: Panel<C>, status1: int, answer1: Answer, status2: int, answer2: Answer)
    requires Finish(p, status1, answer1).0.Some?
    ensures Finish(Finish(p, status1, answer1).1, status2, answer2).0.None?
  {
  }

  /** A cancelled request calls nobody when its end arrives. */
  lemma CancelledCallsNobody<C>(p: Panel<C>, status: int, answer: Answer)
    ensures Finish(CancelIfAlive(p, p.currentId).1, status, answer).0.None?
  {
  }
}
