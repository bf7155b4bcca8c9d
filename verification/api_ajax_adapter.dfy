/** The web app's connection to the API: URL normalisation, the query
    string, the authorisation header (optionally for one request only) and
    the list of requests still running. The request itself (XHR) is not part
    of this model; a request is an id and the values it is sent with. */
module ApiAjaxAdapter {
  import opened Common
  import UriEncoding

  /** `String.prototype.trim`. */
  function JsTrim(s: string): string
  {
    Trim(s, IsJsWhitespace)
  }

  // ---------------------------------------------------------------------------
  // URLs
  // ---------------------------------------------------------------------------

  /** `_cleanBaseUrl`: the trimmed URL, with a `/` added unless it is empty or
      already ends with one. */
  function CleanBaseUrl(baseUrl: string): (r: string)
    ensures r == "" || r[|r| - 1] == '/'
    ensures r == JsTrim(baseUrl) || r == JsTrim(baseUrl) + "/"
    ensures r == JsTrim(baseUrl) <==> JsTrim(baseUrl) == "" || EndsWith(JsTrim(baseUrl), "/")
  {
    var t := JsTrim(baseUrl);
    if t == "" || EndsWith(t, "/") then t else t + "/"
  }

  /** A clean base URL is left as it is. */
  lemma CleanBaseUrlIdempotent(baseUrl: string)
    ensures CleanBaseUrl(CleanBaseUrl(baseUrl)) == CleanBaseUrl(baseUrl)
  {
    var t := JsTrim(baseUrl);
    var r := CleanBaseUrl(baseUrl);
    if r != "" {
      assert r[0] == t[0];
      TrimKeeps(r, IsJsWhitespace);
      assert r[|r| - 1..] == "/";
    }
  }

  /** `_cleanRelativeUrl`: the trimmed URL without its leading slashes. */
  function CleanRelativeUrl(relativeUrl: string): (r: string)
    ensures |r| == 0 || r[0] != '/'
    ensures var t := JsTrim(relativeUrl);
      |r| <= |t| && r == t[|t| - |r|..] && forall i | 0 <= i < |t| - |r| :: t[i] == '/'
  {
    TrimStart(JsTrim(relativeUrl), c => c == '/')
  }

  /** A relative URL that is already clean is kept. */
  lemma CleanRelativeUrlKeeps(relativeUrl: string)
    requires |relativeUrl| > 0 && relativeUrl[0] != '/'
    requires !IsJsWhitespace(relativeUrl[0]) && !IsJsWhitespace(relativeUrl[|relativeUrl| - 1])
    ensures CleanRelativeUrl(relativeUrl) == relativeUrl
  {
    TrimKeeps(relativeUrl, IsJsWhitespace);
  }

  // ---------------------------------------------------------------------------
  // Parameters
  // ---------------------------------------------------------------------------

  /** A plain object of parameters: its entries in insertion order, each value
      as the text `encodeURIComponent` makes of it. When `_urlParams` merges a
      call's parameters with the shared ones, the shared value wins on a key
      both hold (see `SharedParamsWin`). JavaScript lists integer-like keys
      first, in ascending order, and `Object.assign` changes its target in
      place; neither shows here, since the keys used are not integer-like and
      every caller passes a fresh object. */
  type Params = seq<(string, string)>

  function Keys(ps: Params): (r: seq<string>)
    ensures |r| == |ps| && forall i | 0 <= i < |ps| :: r[i] == ps[i].0
  {
    if |ps| == 0 then [] else [ps[0].0] + Keys(ps[1..])
  }

  /** An object never holds a key twice. */
  predicate UniqueKeys(ps: Params)
  {
    Distinct(Keys(ps))
  }

  /** The value under `k`. */
  function Lookup(ps: Params, k: string): (r: Option<string>)
    ensures r.None? <==> k !in Keys(ps)
  {
    if |ps| == 0 then None
    else if ps[0].0 == k then Some(ps[0].1)
    else
      var r := Lookup(ps[1..], k);
      assert Keys(ps) == [ps[0].0] + Keys(ps[1..]);
      r
  }

  /** `obj[k] = v`: an existing entry changes its value in place, a new key
      goes at the end. */
  function Put(ps: Params, k: string, v: string): (r: Params)
    ensures Lookup(r, k) == Some(v)
    ensures k in Keys(ps) ==> |r| == |ps| && forall i | 0 <= i < |ps| :: r[i].0 == ps[i].0
    ensures k !in Keys(ps) ==> r == ps + [(k, v)]
  {
    if |ps| == 0 then [(k, v)]
    else if ps[0].0 == k then [(k, v)] + ps[1..]
    else
      var rest := Put(ps[1..], k, v);
      PutStep(ps, k, v, rest);
      [ps[0]] + rest
  }

  /** A put into the entries after a first entry with another key carries
      over to the whole object. */
  lemma PutStep(ps: Params, k: string, v: string, rest: Params)
    requires |ps| > 0 && ps[0].0 != k
    requires Lookup(rest, k) == Some(v)
    requires k in Keys(ps[1..]) ==> |rest| == |ps| - 1 && forall i | 0 <= i < |ps| - 1 :: rest[i].0 == ps[1..][i].0
    requires k !in Keys(ps[1..]) ==> rest == ps[1..] + [(k, v)]
    ensures var r := [ps[0]] + rest;
      && Lookup(r, k) == Some(v)
      && (k in Keys(ps) ==> |r| == |ps| && forall i | 0 <= i < |ps| :: r[i].0 == ps[i].0)
      && (k !in Keys(ps) ==> r == ps + [(k, v)])
  {
    KeysCons(ps);
    LookupPastFirst(ps[0], rest, k, v);
    if k in Keys(ps[1..]) {
      KeysKept(ps, rest);
    } else {
      AppendAfterFirst(ps, (k, v));
    }
  }

  lemma AppendAfterFirst(ps: Params, x: (string, string))
    requires |ps| > 0
    ensures [ps[0]] + (ps[1..] + [x]) == ps + [x]
  {
    assert ps == [ps[0]] + ps[1..];
  }

  lemma LookupPastFirst(first: (string, string), rest: Params, k: string, v: string)
    requires first.0 != k && Lookup(rest, k) == Some(v)
    ensures Lookup([first] + rest, k) == Some(v)
  {
    assert ([first] + rest)[1..] == rest;
  }

  lemma KeysKept(ps: Params, rest: Params)
    requires |ps| > 0 && |rest| == |ps| - 1
    requires forall i | 0 <= i < |ps| - 1 :: rest[i].0 == ps[1..][i].0
    ensures var r := [ps[0]] + rest; |r| == |ps| && forall i | 0 <= i < |ps| :: r[i].0 == ps[i].0
  {
    var r := [ps[0]] + rest;
    forall i | 0 <= i < |ps| ensures r[i].0 == ps[i].0 {
      if i > 0 { assert r[i] == rest[i - 1] && ps[i] == ps[1..][i - 1]; }
    }
  }

  lemma KeysCons(ps: Params)
    requires |ps| > 0
    ensures Keys(ps) == [ps[0].0] + Keys(ps[1..])
  {
  }

  /** A put leaves every other key's value alone. */
  lemma {:induction false} PutLookup(ps: Params, k: string, v: string, j: string)
    requires j != k
    ensures Lookup(Put(ps, k, v), j) == Lookup(ps, j)
  {
    if |ps| > 0 && ps[0].0 != k {
      PutLookup(ps[1..], k, v, j);
    }
  }

  /** A put never makes a key appear twice. */
  lemma PutKeepsUnique(ps: Params, k: string, v: string)
    requires UniqueKeys(ps)
    ensures UniqueKeys(Put(ps, k, v))
  {
    var r := Put(ps, k, v);
    if k in Keys(ps) {
      SameKeys(r, ps);
    } else {
      KeysAppend(ps, k, v);
    }
  }

  lemma SameKeys(r: Params, ps: Params)
    requires |r| == |ps| && forall i | 0 <= i < |ps| :: r[i].0 == ps[i].0
    ensures Keys(r) == Keys(ps)
  {
  }

  lemma KeysAppend(ps: Params, k: string, v: string)
    requires Distinct(Keys(ps)) && k !in Keys(ps)
    ensures Distinct(Keys(ps + [(k, v)]))
  {
    assert Keys(ps + [(k, v)]) == Keys(ps) + [k];
  }

  /** `Object.assign(target, source)`: every entry of `source` put in order. */
  function Assign(target: Params, source: Params): (r: Params)
    requires UniqueKeys(source)
    ensures |source| > 0 ==> |r| > 0
    ensures UniqueKeys(target) ==> UniqueKeys(r)
    ensures |r| >= |target| && forall i | 0 <= i < |target| :: r[i].0 == target[i].0
    decreases |source|
  {
    if |source| == 0 then target
    else
      assert Keys(source) == [source[0].0] + Keys(source[1..]);
      assert UniqueKeys(source[1..]) by {
        assert Keys(source[1..]) == Keys(source)[1..];
      }
      if UniqueKeys(target) then
        PutKeepsUnique(target, source[0].0, source[0].1);
        Assign(Put(target, source[0].0, source[0].1), source[1..])
      else
        Assign(Put(target, source[0].0, source[0].1), source[1..])
  }

  /** After the assignment a key of `source` holds the value it has there; any
      other key keeps the value it had in `target`. */
  lemma {:induction false} AssignLookup(target: Params, source: Params, k: string)
    requires UniqueKeys(source)
    ensures Lookup(Assign(target, source), k) == if k in Keys(source) then Lookup(source, k) else Lookup(target, k)
    decreases |source|
  {
    if |source| > 0 {
      assert Keys(source) == [source[0].0] + Keys(source[1..]);
      assert UniqueKeys(source[1..]) by {
        assert Keys(source[1..]) == Keys(source)[1..];
      }
      AssignLookup(Put(target, source[0].0, source[0].1), source[1..], k);
      if k == source[0].0 {
        assert k !in Keys(source[1..]);
      } else {
        PutLookup(target, source[0].0, source[0].1, k);
      }
    }
  }

  function Pair(p: (string, string)): string
  {
    UriEncoding.Encode(p.0) + "=" + UriEncoding.Encode(p.1)
  }

  function Pairs(ps: Params): (r: seq<string>)
    ensures |r| == |ps| && forall i | 0 <= i < |ps| :: r[i] == Pair(ps[i])
  {
    seq(|ps|, i requires 0 <= i < |ps| => Pair(ps[i]))
  }

  /** `Object.assign(urlParams, sharedParams)`: on a key both hold, the shared
      value is the one sent; a key only the call has keeps the call's value. */
  lemma SharedParamsWin(params: Params, shared: Params, k: string)
    requires UniqueKeys(shared)
    ensures k in Keys(shared) ==> Lookup(Assign(params, shared), k) == Lookup(shared, k)
    ensures k !in Keys(shared) ==> Lookup(Assign(params, shared), k) == Lookup(params, k)
  {
    AssignLookup(params, shared, k);
  }

  /** `_urlParams`: the call's parameters with the shared ones put over them,
      each as `key=value` encoded, joined by `&`. */
  function UrlParams(params: Params, shared: Params): string
    requires UniqueKeys(shared)
  {
    Join(Pairs(Assign(params, shared)), '&')
  }

  /** How a server reads a query string back: `&`-separated `key=value`
      pairs, each side decoded. */
  function ParseQuery(q: string): (r: Result<Params, UriEncoding.UriError>)
  {
    if q == "" then Ok([]) else ParsePairs(Split(q, '&'))
  }

  function ParsePairs(pieces: seq<string>): (r: Result<Params, UriEncoding.UriError>)
    ensures r.Ok? ==> |r.value| == |pieces|
  {
    if |pieces| == 0 then Ok([])
    else
      var parts := Split(pieces[0], '=');
      if |parts| != 2 then Err(UriEncoding.MalformedUri)
      else
        var k :- UriEncoding.Decode(parts[0]);
        var v :- UriEncoding.Decode(parts[1]);
        var rest :- ParsePairs(pieces[1..]);
        Ok([(k, v)] + rest)
  }

  lemma {:induction false} ParsePairsOf(ps: Params)
    ensures ParsePairs(Pairs(ps)) == Ok(ps)
    decreases |ps|
  {
    if |ps| > 0 {
      var pieces := Pairs(ps);
      PairParses(ps[0]);
      assert pieces[1..] == Pairs(ps[1..]);
      ParsePairsOf(ps[1..]);
      ParsePairsCons(pieces, ps[0], ps[1..]);
      assert [ps[0]] + ps[1..] == ps;
    }
  }

  /** A first piece that reads as a pair, before pieces that read back,
      adds that pair in front. */
  lemma ParsePairsCons(pieces: seq<string>, p: (string, string), rest: Params)
    requires |pieces| > 0
    requires Split(pieces[0], '=') == [UriEncoding.Encode(p.0), UriEncoding.Encode(p.1)]
    requires UriEncoding.Decode(UriEncoding.Encode(p.0)) == Ok(p.0)
    requires UriEncoding.Decode(UriEncoding.Encode(p.1)) == Ok(p.1)
    requires ParsePairs(pieces[1..]) == Ok(rest)
    ensures ParsePairs(pieces) == Ok([p] + rest)
  {
  }

  /** One pair splits at its `=` into the two encoded sides, which decode to
      the key and the value. */
  lemma PairParses(p: (string, string))
    ensures Split(Pair(p), '=') == [UriEncoding.Encode(p.0), UriEncoding.Encode(p.1)]
    ensures UriEncoding.Decode(UriEncoding.Encode(p.0)) == Ok(p.0)
    ensures UriEncoding.Decode(UriEncoding.Encode(p.1)) == Ok(p.1)
  {
    UriEncoding.EncodeHasNoSeparator(p.0);
    UriEncoding.EncodeHasNoSeparator(p.1);
    SplitOnce(Pair(p), '=', UriEncoding.Encode(p.0), UriEncoding.Encode(p.1));
    UriEncoding.DecodeEncode(p.0);
    UriEncoding.DecodeEncode(p.1);
  }

  /** The query string reads back as exactly the merged parameters, in
      order: one `&` between pairs, none before or after. */
  lemma UrlParamsRoundTrip(params: Params, shared: Params)
    requires UniqueKeys(shared) && |shared| > 0
    ensures ParseQuery(UrlParams(params, shared)) == Ok(Assign(params, shared))
  {
    QueryRoundTrip(Assign(params, shared));
  }

  /** Any non-empty list of pairs, encoded and joined by `&`, reads back as
      itself. */
  lemma QueryRoundTrip(ps: Params)
    requires |ps| > 0
    ensures ParseQuery(Join(Pairs(ps), '&')) == Ok(ps)
  {
    var pieces := Pairs(ps);
    PairsHaveNoAmpersand(ps);
    SplitJoin(pieces, '&');
    assert Join(pieces, '&') != "" by {
      JoinHasFirst(pieces, '&');
    }
    ParsePairsOf(ps);
  }

  /** An encoded pair never holds `&`. */
  lemma PairsHaveNoAmpersand(ps: Params)
    ensures forall i | 0 <= i < |ps| :: '&' !in Pairs(ps)[i]
  {
    forall i | 0 <= i < |ps| ensures '&' !in Pairs(ps)[i] {
      UriEncoding.EncodeHasNoSeparator(ps[i].0);
      UriEncoding.EncodeHasNoSeparator(ps[i].1);
    }
  }

  lemma JoinHasFirst(parts: seq<string>, sep: char)
    requires |parts| > 0
    ensures |Join(parts, sep)| >= |parts[0]|
  {
  }

  // ---------------------------------------------------------------------------
  // The adapter
  // ---------------------------------------------------------------------------

  const Basic := "Basic"
  const Bearer := "Bearer"

  /** The adapter's state: the clean base URL, the shared parameters, the
      authorisation header and whether it is for the next request only, the
      requests running, and how many requests it has issued. */
  datatype Adapter = Adapter(
    baseUrl: string, shared: Params,
    header: Option<string>, justOnce: bool,
    ongoing: seq<nat>, issued: nat)

  /** What a request is sent with. */
  datatype HttpRequest<B> = HttpRequest(id: nat, httpMethod: string, url: string, authorization: Option<string>, body: Option<B>)

  /** The adapter invariant: `out=json` is always shared, keys are unique,
      and the running requests are distinct issued ones. */
  predicate Valid(a: Adapter)
  {
    && UniqueKeys(a.shared)
    && Lookup(a.shared, "out") == Some("json")
    && Distinct(a.ongoing)
    && forall i | 0 <= i < |a.ongoing| :: a.ongoing[i] < a.issued
  }

  /** The constructor: `out=json` shared, and `no_cache=true` as well when asked. */
  function NewAdapter(baseUrl: string, noCache: bool): (a: Adapter)
    ensures Valid(a)
    ensures a.baseUrl == CleanBaseUrl(baseUrl) && a.header == None && a.ongoing == []
    ensures Lookup(a.shared, "no_cache") == if noCache then Some("true") else None
  {
    Adapter(CleanBaseUrl(baseUrl), DefaultShared(noCache), None, false, [], 0)
  }

  /** The shared parameters the constructor starts with. */
  function DefaultShared(noCache: bool): (r: Params)
    ensures UniqueKeys(r) && Lookup(r, "out") == Some("json")
    ensures Lookup(r, "no_cache") == if noCache then Some("true") else None
  {
    var shared := Put([], "out", "json");
    PutKeepsUnique([], "out", "json");
    if noCache then
      PutLookup(shared, "no_cache", "true", "out");
      PutKeepsUnique(shared, "no_cache", "true");
      Put(shared, "no_cache", "true")
    else shared
  }

  /** `setAuthorisation`: `Basic` with the encoded `user:password`, `Bearer`
      with the token; any other method changes nothing. `btoa` is a
      parameter; a missing password prints as `undefined`. */
  function SetAuthorisation(a: Adapter, authMethod: string, val1: string, val2: Option<string>, justOnce: bool, btoa: string -> string): (r: Adapter)
    ensures authMethod == Basic ==> r == a.(header := Some("Basic" + [' '] + btoa(val1 + ":" + TemplateText(val2))), justOnce := justOnce)
    ensures authMethod == Bearer ==> r == a.(header := Some("Bearer" + [' '] + val1), justOnce := justOnce)
    ensures authMethod != Basic && authMethod != Bearer ==> r == a
  {
    if authMethod == Basic then a.(header := Some(authMethod + [' '] + btoa(val1 + ":" + TemplateText(val2))), justOnce := justOnce)
    else if authMethod == Bearer then a.(header := Some(authMethod + [' '] + val1), justOnce := justOnce)
    else a
  }

  /** `cancelAuthorisation`. */
  function CancelAuthorisation(a: Adapter): (r: Adapter)
    ensures r.header == None && !r.justOnce
    ensures r == a.(header := None, justOnce := false)
  {
    a.(header := None, justOnce := false)
  }

  /** The URL of a request: the base, the clean relative URL, `?` and the
      query string. */
  function RequestUrl(baseUrl: string, relativeUrl: string, query: string): string
  {
    baseUrl + CleanRelativeUrl(relativeUrl) + "?" + query
  }

  /** The adapter after it has issued one more request: the header is
      dropped if it was for one request, and the request joins the running
      ones under the next id. */
  function Issue(a: Adapter): (r: Adapter)
    requires Valid(a)
    ensures Valid(r)
    ensures r.header == if a.justOnce then None else a.header
    ensures a.issued !in a.ongoing && r.ongoing == a.ongoing + [a.issued]
    ensures r.baseUrl == a.baseUrl && r.shared == a.shared && r.justOnce == a.justOnce
  {
    AppendFresh(a.ongoing, a.issued);
    a.(header := if a.justOnce then None else a.header, ongoing := a.ongoing + [a.issued], issued := a.issued + 1)
  }

  /** `_request`: the URL is the base, the clean relative URL and the query
      string; the request carries the current header, and the adapter moves
      on as `Issue` says. */
  function Request<B>(a: Adapter, httpMethod: string, relativeUrl: string, params: Params, body: Option<B>): (r: (HttpRequest<B>, Adapter))
    requires Valid(a)
    ensures r.1 == Issue(a) && r.0.id == a.issued
    ensures r.0.url == RequestUrl(a.baseUrl, relativeUrl, UrlParams(params, a.shared))
    ensures r.0.httpMethod == httpMethod && r.0.body == body
    ensures r.0.authorization == a.header
  {
    (HttpRequest(a.issued, httpMethod, RequestUrl(a.baseUrl, relativeUrl, UrlParams(params, a.shared)), a.header, body), Issue(a))
  }

  /** A number above every element of a list without repeats can be added
      to it, and the list stays below the next number. */
  lemma AppendFresh(s: seq<nat>, x: nat)
    requires Distinct(s) && forall i | 0 <= i < |s| :: s[i] < x
    ensures Distinct(s + [x]) && x !in s
    ensures forall i | 0 <= i < |s + [x]| :: (s + [x])[i] < x + 1
  {
    var t := s + [x];
    forall i, j | 0 <= i < j < |t| ensures t[i] != t[j] {
      assert t[i] == s[i];
    }
  }

  /** `_requestFinished`: the request leaves the running list; nothing
      happens for one that is not in it. */
  function Finished(a: Adapter, id: nat): (r: Adapter)
    requires Valid(a)
    ensures Valid(r)
    ensures id !in r.ongoing
    ensures forall j :: j != id ==> (j in r.ongoing <==> j in a.ongoing)
    ensures id !in a.ongoing ==> r == a
    ensures r == a.(ongoing := r.ongoing)
  {
    match IndexOfId(a.ongoing, id)
    case None => a
    case Some(i) =>
      RemoveDistinct(a.ongoing, i);
      a.(ongoing := RemoveAt(a.ongoing, i))
  }

  /** Removing one element of a list without repeats leaves a list without
      repeats that holds every other element and not the removed one. */
  lemma RemoveDistinct(s: seq<nat>, i: nat)
    requires Distinct(s) && i < |s|
    ensures var r := RemoveAt(s, i);
      Distinct(r) && s[i] !in r && forall j :: j != s[i] ==> (j in r <==> j in s)
  {
    var r := RemoveAt(s, i);
    forall x, y | 0 <= x < y < |r| ensures r[x] != r[y] {
      assert r[x] == s[if x < i then x else x + 1];
      assert r[y] == s[if y < i then y else y + 1];
    }
    forall x | 0 <= x < |r| ensures r[x] != s[i] {
      assert r[x] == s[if x < i then x else x + 1];
    }
    forall j | j != s[i] ensures j in r <==> j in s {
      assert j in multiset(r) <==> j in multiset(s);
    }
  }

  /** `indexOf` on the running list. */
  function IndexOfId(s: seq<nat>, id: nat): (r: Option<nat>)
    ensures r.None? <==> id !in s
    ensures r.Some? ==> r.value < |s| && s[r.value] == id
  {
    if |s| == 0 then None
    else if s[0] == id then Some(0)
    else match IndexOfId(s[1..], id)
      case None => None
      case Some(k) => Some(k + 1)
  }

  /** `abortAll`: every running request is aborted, the last issued first,
      and none is left. */
  function AbortAll(a: Adapter): (r: (seq<nat>, Adapter))
    requires Valid(a)
    ensures Valid(r.1) && r.1.ongoing == [] && r.1 == a.(ongoing := [])
    ensures |r.0| == |a.ongoing| && forall i | 0 <= i < |r.0| :: r.0[i] == a.ongoing[|a.ongoing| - 1 - i]
  {
    (Reversed(a.ongoing), a.(ongoing := []))
  }

  function Reversed(s: seq<nat>): (r: seq<nat>)
    ensures |r| == |s| && forall i | 0 <= i < |r| :: r[i] == s[|s| - 1 - i]
  {
    if |s| == 0 then [] else Reversed(s[1..]) + [s[0]]
  }

  // ---------------------------------------------------------------------------
  // Properties of the adapter
  // ---------------------------------------------------------------------------

  /** The headers that `n` requests in a row are sent with. */
  function HeadersOf(a: Adapter, n: nat): (r: seq<Option<string>>)
    requires Valid(a)
    ensures |r| == n
    decreases n
  {
    if n == 0 then [] else [a.header] + HeadersOf(Issue(a), n - 1)
  }

  /** The first of them is the header the next request carries. */
  lemma HeadersOfRequest<B>(a: Adapter, n: nat, httpMethod: string, relativeUrl: string, params: Params, body: Option<B>)
    requires Valid(a) && n >= 1
    ensures var (req, b) := Request(a, httpMethod, relativeUrl, params, body);
      HeadersOf(a, n) == [req.authorization] + HeadersOf(b, n - 1)
  {
  }

  /** A header set for one request goes with exactly the next request. */
  lemma {:induction false} JustOnceHeader(a: Adapter, authMethod: string, val1: string, val2: Option<string>, btoa: string -> string, n: nat)
    requires Valid(a) && (authMethod == Basic || authMethod == Bearer) && n >= 1
    ensures var h := HeadersOf(SetAuthorisation(a, authMethod, val1, val2, true, btoa), n);
      h[0] == SetAuthorisation(a, authMethod, val1, val2, true, btoa).header && h[0].Some?
      && forall i | 1 <= i < n :: h[i] == None
  {
    var b := SetAuthorisation(a, authMethod, val1, val2, true, btoa);
    SetOnceValid(a, authMethod, val1, val2, btoa);
    NoHeaderStays(Issue(b), n - 1);
    HeadersShift(b, n);
  }

  lemma SetOnceValid(a: Adapter, authMethod: string, val1: string, val2: Option<string>, btoa: string -> string)
    requires Valid(a) && (authMethod == Basic || authMethod == Bearer)
    ensures var b := SetAuthorisation(a, authMethod, val1, val2, true, btoa);
      Valid(b) && b.justOnce && b.header.Some?
  {
    var b := SetAuthorisation(a, authMethod, val1, val2, true, btoa);
    assert b.shared == a.shared && b.ongoing == a.ongoing && b.issued == a.issued;
  }

  /** The headers after the first are those of the adapter once it has
      issued a request. */
  lemma HeadersShift(a: Adapter, n: nat)
    requires Valid(a) && n >= 1
    ensures HeadersOf(a, n)[0] == a.header
    ensures forall i | 1 <= i < n :: HeadersOf(a, n)[i] == HeadersOf(Issue(a), n - 1)[i - 1]
  {
  }

  lemma {:induction false} NoHeaderStays(a: Adapter, n: nat)
    requires Valid(a) && a.header == None
    ensures forall i | 0 <= i < n :: HeadersOf(a, n)[i] == None
    decreases n
  {
    if n > 0 {
      NoHeaderStays(Issue(a), n - 1);
    }
  }

  /** A header set for good goes with every request until it is cancelled. */
  lemma {:induction false} LastingHeader(a: Adapter, n: nat)
    requires Valid(a) && !a.justOnce
    ensures forall i | 0 <= i < n :: HeadersOf(a, n)[i] == a.header
    decreases n
  {
    if n > 0 {
      LastingHeader(Issue(a), n - 1);
    }
  }

  /** A request stays among the running ones until it finishes or all are
      aborted. */
  lemma RunningUntilFinished<B>(a: Adapter, httpMethod: string, relativeUrl: string, params: Params, body: Option<B>, other: nat)
    requires Valid(a)
    ensures var (req, b) := Request(a, httpMethod, relativeUrl, params, body);
      req.id in b.ongoing
      && (other != req.id ==> req.id in Finished(b, other).ongoing)
      && req.id !in Finished(b, req.id).ongoing
  {
  }

  /** The base URL ends with `/` and the relative URL starts without one, so
      the two never meet in a double slash. */
  lemma NoDoubleSlash(baseUrl: string, relativeUrl: string, query: string)
    ensures var base := CleanBaseUrl(baseUrl);
      var url := RequestUrl(base, relativeUrl, query);
      var k := |base|;
      (k > 0 ==> url[k - 1] == '/' && url[k] != '/')
      && url[..k] == base
  {
    var base := CleanBaseUrl(baseUrl);
    var rel := CleanRelativeUrl(relativeUrl);
    RequestUrlParts(base, relativeUrl, query);
    QueryStart(rel, query);
    SlashJoint(base, rel + "?" + query);
  }

  lemma RequestUrlParts(base: string, relativeUrl: string, query: string)
    ensures RequestUrl(base, relativeUrl, query) == base + (CleanRelativeUrl(relativeUrl) + "?" + query)
  {
    AppendAssociates(base, CleanRelativeUrl(relativeUrl), "?", query);
  }

  lemma AppendAssociates(a: string, b: string, c: string, d: string)
    ensures a + b + c + d == a + (b + c + d)
  {
  }

  /** What follows the base URL starts with the relative URL's first
      character, or with the `?` when it is empty; never with a slash. */
  lemma QueryStart(rel: string, query: string)
    requires |rel| == 0 || rel[0] != '/'
    ensures var rest := rel + "?" + query; |rest| > 0 && rest[0] != '/'
  {
    var rest := rel + "?" + query;
    if |rel| == 0 {
      assert rest[0] == '?';
    } else {
      assert rest[0] == rel[0];
    }
  }

  lemma SlashJoint(base: string, rest: string)
    requires |base| > 0 ==> base[|base| - 1] == '/'
    requires |rest| > 0 && rest[0] != '/'
    ensures var url := base + rest;
      (|base| > 0 ==> url[|base| - 1] == '/' && url[|base|] != '/') && url[..|base|] == base
  {
    assert (base + rest)[|base|] == rest[0];
  }
}
