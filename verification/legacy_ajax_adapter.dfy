/** The web app's first connection to the API: one GET request at a time,
    one success callback, and a query string that always starts with
    `out=json`. URL cleaning is the same as in the newer adapter. */
module LegacyAjaxAdapter {
  import opened Common
  import UriEncoding
  import Ajax = ApiAjaxAdapter

  // ---------------------------------------------------------------------------
  // The query string
  // ---------------------------------------------------------------------------

  /** The entries of the caller's parameters whose key is not `out`. */
  function Others(params: Ajax.Params): (r: Ajax.Params)
    ensures forall i | 0 <= i < |r| :: r[i].0 != "out" && r[i] in params
    ensures forall p | p in params && p.0 != "out" :: p in r
  {
    if |params| == 0 then []
    else if params[0].0 == "out" then Others(params[1..])
    else [params[0]] + Others(params[1..])
  }

  /** The fixed first pair. */
  const OutJson: (string, string) := ("out", "json")

  /** `_urlParams` as written: `out=json` followed by every other pair,
      with nothing between the pairs. */
  function UrlParamsAsWritten(params: Ajax.Params): string
  {
    "out=json" + Concat(Ajax.Pairs(Others(params)))
  }

  /** `_urlParams` as intended: `out=json` and every other pair, joined by `&`. */
  function UrlParams(params: Ajax.Params): string
  {
    Join(Ajax.Pairs([OutJson] + Others(params)), '&')
  }

  /** The intended query string reads back as `out=json` followed by the
      caller's other parameters, in order. */
  lemma UrlParamsRoundTrip(params: Ajax.Params)
    ensures Ajax.ParseQuery(UrlParams(params)) == Ok([OutJson] + Others(params))
  {
    Ajax.QueryRoundTrip([OutJson] + Others(params));
  }

  /** The first pair of the intended string is `out=json`. */
  lemma UrlParamsStartsWithOut(params: Ajax.Params)
    ensures StartsWith(UrlParams(params), "out=json")
  {
    OutJsonPair();
    var pieces := Ajax.Pairs([OutJson] + Others(params));
    assert pieces[0] == "out=json";
    if |pieces| > 1 {
      assert Join(pieces, '&') == pieces[0] + ['&'] + Join(pieces[1..], '&');
    }
  }

  lemma OutJsonPair()
    ensures Ajax.Pair(OutJson) == "out=json"
  {
    UriEncoding.EncodeUnreserved("out");
    UriEncoding.EncodeUnreserved("json");
  }

  /** As written, a call with any parameter besides `out` yields a query
      string without `&`: a server reads it as one malformed pair, never as
      the parameters sent. */
  lemma UrlParamsAsWrittenLosesParams(params: Ajax.Params)
    requires |Others(params)| > 0
    ensures '&' !in UrlParamsAsWritten(params)
    ensures Ajax.ParseQuery(UrlParamsAsWritten(params)) != Ok([OutJson] + Others(params))
  {
    var s := UrlParamsAsWritten(params);
    Ajax.PairsHaveNoAmpersand(Others(params));
    ConcatHasNo(Ajax.Pairs(Others(params)), '&');
    assert '&' !in s by {
      assert s == "out=json" + Concat(Ajax.Pairs(Others(params)));
    }
    SplitJoin([s], '&');
    assert Split(s, '&') == [s];
    assert s != "";
  }

  /** Without parameters besides `out` the string as written is the
      intended one: `out=json` alone. */
  lemma UrlParamsAgreeWithoutOthers(params: Ajax.Params)
    requires |Others(params)| == 0
    ensures UrlParamsAsWritten(params) == UrlParams(params) == "out=json"
  {
    OutJsonPair();
    assert Ajax.Pairs([OutJson] + Others(params)) == ["out=json"];
    assert Concat(Ajax.Pairs(Others(params))) == "";
  }

  lemma {:induction false} ConcatHasNo(parts: seq<string>, c: char)
    requires forall i | 0 <= i < |parts| :: c !in parts[i]
    ensures c !in Concat(parts)
    decreases |parts|
  {
    if |parts| > 0 {
      ConcatHasNo(parts[1..], c);
    }
  }

  // ---------------------------------------------------------------------------
  // The request slot
  // ---------------------------------------------------------------------------

  /** The adapter: its clean base URL and the callback of the request in
      flight, if any. */
  datatype Legacy<C> = Legacy(baseUrl: string, onSuccess: Option<C>)

  /** A GET request as it goes out, and whether it aborted the one in
      flight. */
  datatype Sent = Sent(url: string, abortedPrevious: bool)

  function NewLegacy<C>(baseUrl: string): (a: Legacy<C>)
    ensures a.baseUrl == Ajax.CleanBaseUrl(baseUrl) && a.onSuccess == None
  {
    Legacy(Ajax.CleanBaseUrl(baseUrl), None)
  }

  /** `get`: without a callback nothing happens; otherwise the request goes
      out, aborting the one in flight, and its callback takes the slot. The
      query string is the one `_urlParams` builds as written. */
  function Get<C>(a: Legacy<C>, relativeUrl: string, params: Ajax.Params, onSuccess: Option<C>): (r: (Option<Sent>, Legacy<C>))
    ensures onSuccess.None? ==> r == (None, a)
    ensures onSuccess.Some? ==> r.1 == a.(onSuccess := onSuccess) && r.0.Some?
    ensures r.0.Some? ==> r.0.value.url == Ajax.RequestUrl(a.baseUrl, relativeUrl, UrlParamsAsWritten(params))
    ensures r.0.Some? ==> (r.0.value.abortedPrevious <==> a.onSuccess.Some?)
  {
    if onSuccess.None? then (None, a)
    else (Some(Sent(Ajax.RequestUrl(a.baseUrl, relativeUrl, UrlParamsAsWritten(params)), a.onSuccess.Some?)), a.(onSuccess := onSuccess))
  }

  /** What the end of a request leads to: the callback called with the
      body (none for 204), the API unreachable, an API error, or a success
      with no callback to call (the source would call `null`). */
  datatype Reaction<C, B> = Success(callback: C, body: Option<B>) | Unreachable | ApiError(status: int) | NoCallback

  /** `_requestFinished`: 200 and 204 call the callback, 0 reports that the
      API cannot be reached, anything else is an API error; the slot is
      emptied in every case. */
  function Finish<C, B>(a: Legacy<C>, status: int, body: B): (r: (Reaction<C, B>, Legacy<C>))
    ensures r.1 == a.(onSuccess := None)
    ensures r.0.Success? <==> (status == 200 || status == 204) && a.onSuccess.Some?
    ensures r.0.Success? ==> r.0.callback == a.onSuccess.value && (r.0.body.Some? <==> status == 200)
    ensures r.0.Success? && status == 200 ==> r.0.body == Some(body)
    ensures r.0 == Unreachable <==> status == 0
    ensures r.0.ApiError? <==> status != 0 && status != 200 && status != 204
  {
    var reaction :=
      if status == 200 || status == 204 then
        match a.onSuccess
        case Some(callback) => Success(callback, if status == 200 then Some(body) else None)
        case None => NoCallback
      else if status == 0 then Unreachable
      else ApiError(status);
    (reaction, a.(onSuccess := None))
  }

  /** Of two requests in a row, only the later one's callback can be called:
      the first is aborted and its callback dropped. */
  lemma LatestCallbackWins<C, B>(a: Legacy<C>, first: C, second: C, rel1: string, rel2: string, params1: Ajax.Params, params2: Ajax.Params, body: B)
    ensures var b := Get(a, rel1, params1, Some(first)).1;
      var (sent, c) := Get(b, rel2, params2, Some(second));
      sent.value.abortedPrevious
      && Finish(c, 200, body).0 == Success(second, Some(body))
  {
  }

  /** A callback is called at most once: after a request ends, a second end
      calls nothing. */
  lemma CalledAtMostOnce<C, B>(a: Legacy<C>, status1: int, body1: B, status2: int, body2: B)
    ensures !Finish(Finish(a, status1, body1).1, status2, body2).0.Success?
  {
  }
}
