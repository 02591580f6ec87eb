/**
 * The headline retrieval policy: which endpoints are tried and in what order, the query each
 * request carries, how a response is classified, the provider's own filter-and-slice mapper,
 * and the endpoint-fallback loop. The network, the payload decoder and the clock are inputs.
 */
module NewsProvider {
  import opened Wrappers
  import opened Seqs
  import opened Text
  import opened Numerals
  import opened Articles
  import opened SavedNews
  import NewsSchema

  const NEWS_API_URL: string := "https://newsapi.org/v2/top-headlines"
  const NEWS_SNAPSHOT_PATH: string := "/news.json"
  const MAX_NEWS_API_PAGE_SIZE: int := 50
  const OVERFETCH_MULTIPLIER: int := 3

  const MISSING_KEY_MESSAGE: string :=
    "Missing NewsAPI key. Set EXPO_PUBLIC_NEWS_API_KEY or app.config.js extra.newsApiKey."
  const HTML_MESSAGE: string := "News endpoint returned HTML instead of JSON."
  const INVALID_MESSAGE: string := "News endpoint returned an invalid response."
  const FETCH_FAILED_MESSAGE: string := "Failed to fetch top headlines."
  const UNABLE_MESSAGE: string := "Unable to load news right now."
  const DEPLOY_HINT: string := " Ensure /news.json is generated during deploy."
  const UNTITLED: string := "Untitled"

  /** The two places headlines come from: the deployed snapshot file and the live API. */
  datatype Endpoint = Snapshot | Live

  function EndpointUrl(e: Endpoint): string {
    match e
    case Snapshot => NEWS_SNAPSHOT_PATH
    case Live => NEWS_API_URL
  }

  /** `FetchTopHeadlinesParams`; the page size is taken to be an integer. */
  datatype Params = Params(country: string, category: string, pageSize: int, isWeb: bool, newsApiKey: Option<string>)

  /** A parsed response body: `status`, `articles` and `message`, each possibly absent. */
  datatype Payload = Payload(status: Option<string>, articles: Option<seq<RawArticle>>, message: Option<string>)

  /** One request: the endpoint and its query parameters, in the order they are appended. */
  datatype Request = Request(endpoint: Endpoint, query: seq<(string, string)>)

  /**
   * What a request comes to: `fetch` (or reading the body) rejected, with the message of the
   * `Error` it rejected with or None for a non-`Error` value; or a response with its `ok` flag,
   * its `content-type` header and its body text.
   */
  datatype Outcome =
    | Rejected(error: Option<string>)
    | Received(ok: bool, contentType: Option<string>, body: string)

  /**
   * The world a call runs in: what each request comes to, the JSON decoder (None where
   * `JSON.parse` throws), `Date.now()` and `new Date().toISOString()`.
   */
  datatype Env = Env(network: Request -> Outcome, decode: string -> Option<Payload>, nowMs: int, nowIso: string)

  // ---- Endpoints and query ----

  /** `getEndpoints`: on web the snapshot, then the live API if there is a key; elsewhere the live API alone. */
  function GetEndpoints(isWeb: bool, newsApiKey: Option<string>): (r: seq<Endpoint>)
    ensures 1 <= |r| <= 2
    ensures r[0] == (if isWeb then Snapshot else Live)
    ensures Live in r <==> (!isWeb || Present(newsApiKey))
    ensures Snapshot in r <==> isWeb
    ensures |r| == 2 ==> r[0] != r[1]
  {
    if isWeb then
      if Present(newsApiKey) then [Snapshot, Live] else [Snapshot]
    else [Live]
  }

  /** The three cases of the endpoint list, read off `GetEndpoints`'s contract. */
  lemma EndpointCases(isWeb: bool, newsApiKey: Option<string>)
    ensures isWeb && !Present(newsApiKey) ==> GetEndpoints(isWeb, newsApiKey) == [Snapshot]
    ensures isWeb && Present(newsApiKey) ==> GetEndpoints(isWeb, newsApiKey) == [Snapshot, Live]
    ensures !isWeb ==> GetEndpoints(isWeb, newsApiKey) == [Live]
  {
    var r := GetEndpoints(isWeb, newsApiKey);
    if |r| == 2 {
      assert r[1] != r[0];
    }
  }

  /** Three times the page size, at most the API's maximum of 50. */
  function RequestedPageSize(pageSize: int): (n: int)
    ensures n <= MAX_NEWS_API_PAGE_SIZE && n <= OVERFETCH_MULTIPLIER * pageSize
    ensures n == MAX_NEWS_API_PAGE_SIZE || n == OVERFETCH_MULTIPLIER * pageSize
  {
    if pageSize * OVERFETCH_MULTIPLIER < MAX_NEWS_API_PAGE_SIZE then pageSize * OVERFETCH_MULTIPLIER
    else MAX_NEWS_API_PAGE_SIZE
  }

  /** `URLSearchParams.get`: the value of the first pair with that key. */
  function Lookup(query: seq<(string, string)>, key: string): (r: Option<string>)
    ensures r.Some? <==> exists i :: 0 <= i < |query| && query[i].0 == key
    ensures r.Some? ==> exists i :: 0 <= i < |query| && query[i] == (key, r.value)
                                   && forall j :: 0 <= j < i ==> query[j].0 != key
    decreases |query|
  {
    if query == [] then None
    else
      var front := query[..|query| - 1];
      var r := Lookup(front, key);
      assert forall i :: 0 <= i < |front| ==> query[i] == front[i];
      if r.Some? then r
      else if query[|query| - 1].0 == key then Some(query[|query| - 1].1)
      else None
  }

  lemma LookupAppend(query: seq<(string, string)>, pair: (string, string), key: string)
    ensures Lookup(query + [pair], key)
            == if Lookup(query, key).Some? then Lookup(query, key) else if pair.0 == key then Some(pair.1) else None
  {
    assert (query + [pair])[..|query|] == query;
  }

  /**
   * The query of one request, or the missing-key error for the live API without a key:
   * `country`, `pageSize`, `category` unless it is "all", then `apiKey` (live) or `_ts` (snapshot).
   */
  function BuildQuery(endpoint: Endpoint, p: Params, nowMs: int): (r: Result<seq<(string, string)>, string>)
    ensures r.Failure? <==> endpoint == Live && !Present(p.newsApiKey)
    ensures r.Failure? ==> r.error == MISSING_KEY_MESSAGE
    ensures r.Success? ==>
              && |r.value| >= 3
              && r.value[0] == ("country", p.country)
              && r.value[1] == ("pageSize", Decimal(RequestedPageSize(p.pageSize)))
              && Lookup(r.value, "category") == (if p.category != "all" then Some(p.category) else None)
              && Lookup(r.value, "apiKey") == (if endpoint == Live then p.newsApiKey else None)
              && Lookup(r.value, "_ts") == (if endpoint == Snapshot then Some(Decimal(nowMs)) else None)
  {
    var q0 := [("country", p.country)];
    var q1 := q0 + [("pageSize", Decimal(RequestedPageSize(p.pageSize)))];
    var base := if p.category != "all" then q1 + [("category", p.category)] else q1;
    QueryLookups(p, q0, q1, base);
    if endpoint == Live then
      if !Present(p.newsApiKey) then Failure(MISSING_KEY_MESSAGE)
      else
        var q := base + [("apiKey", p.newsApiKey.value)];
        LookupAppend(base, ("apiKey", p.newsApiKey.value), "category");
        LookupAppend(base, ("apiKey", p.newsApiKey.value), "apiKey");
        LookupAppend(base, ("apiKey", p.newsApiKey.value), "_ts");
        Success(q)
    else
      var q := base + [("_ts", Decimal(nowMs))];
      LookupAppend(base, ("_ts", Decimal(nowMs)), "category");
      LookupAppend(base, ("_ts", Decimal(nowMs)), "apiKey");
      LookupAppend(base, ("_ts", Decimal(nowMs)), "_ts");
      assert endpoint == Snapshot;
      assert Lookup(q, "_ts") == Some(Decimal(nowMs));
      Success(q)
  }

  /** The keys the first three pairs answer to. */
  lemma QueryLookups(p: Params, q0: seq<(string, string)>, q1: seq<(string, string)>, base: seq<(string, string)>)
    requires q0 == [("country", p.country)]
    requires q1 == q0 + [("pageSize", Decimal(RequestedPageSize(p.pageSize)))]
    requires base == if p.category != "all" then q1 + [("category", p.category)] else q1
    ensures |base| >= 2 && base[0] == ("country", p.country) && base[1] == ("pageSize", Decimal(RequestedPageSize(p.pageSize)))
    ensures Lookup(base, "category") == (if p.category != "all" then Some(p.category) else None)
    ensures Lookup(base, "apiKey") == None && Lookup(base, "_ts") == None
  {
    QueryKeysDiffer();
    assert Lookup([], "category") == None;
    LookupAppend([], q0[0], "category");
    LookupAppend([], q0[0], "apiKey");
    LookupAppend([], q0[0], "_ts");
    assert [] + [q0[0]] == q0;
    LookupAppend(q0, q1[1], "category");
    LookupAppend(q0, q1[1], "apiKey");
    LookupAppend(q0, q1[1], "_ts");
    if p.category != "all" {
      LookupAppend(q1, ("category", p.category), "category");
      LookupAppend(q1, ("category", p.category), "apiKey");
      LookupAppend(q1, ("category", p.category), "_ts");
    }
  }

  lemma QueryKeysDiffer()
    ensures "country" != "category" && "country" != "apiKey" && "country" != "_ts"
    ensures "pageSize" != "category" && "pageSize" != "apiKey" && "pageSize" != "_ts"
    ensures "category" != "apiKey" && "category" != "_ts" && "apiKey" != "_ts"
  {
    assert "country"[1] == 'o' && "category"[1] == 'a';
    assert "apiKey"[0] == 'a' && "_ts"[0] == '_' && "pageSize"[0] == 'p' && "category"[0] == 'c';
  }

  /** The page size sent reads back as the over-fetch size. */
  lemma PageSizeParamReadsBack(endpoint: Endpoint, p: Params, nowMs: int)
    requires BuildQuery(endpoint, p, nowMs).Success?
    ensures var v := BuildQuery(endpoint, p, nowMs).value[1].1;
            && v != []
            && (forall i :: (if v[0] == '-' then 1 else 0) <= i < |v| ==> IsDigit(v[i], 10))
            && ParseDecimal(v) == RequestedPageSize(p.pageSize)
  {
    DecimalRoundTrip(RequestedPageSize(p.pageSize));
  }

  // ---- Responses and mapping ----

  /**
   * `parseNewsResponse`: the decoded payload, or, when the body does not parse, the HTML error if
   * the content type mentions `text/html` or the body starts with `<` after leading whitespace,
   * else the invalid-response error.
   */
  function ParseNewsResponse(contentType: Option<string>, body: string, decode: string -> Option<Payload>): (r: Result<Payload, string>)
    ensures r.Success? <==> decode(body).Some?
    ensures r.Success? ==> r.value == decode(body).value
    ensures r.Failure? ==>
              (r.error == HTML_MESSAGE <==> Contains(OrElse(contentType, ""), "text/html") || StartsWith(TrimStart(body), "<"))
    ensures r.Failure? ==> r.error == HTML_MESSAGE || r.error == INVALID_MESSAGE
  {
    match decode(body)
    case Some(payload) => Success(payload)
    case None =>
      var ct := OrElse(contentType, "");
      var gotHtml := Contains(ct, "text/html") || StartsWith(TrimStart(body), "<");
      HtmlDiffersFromInvalid();
      if gotHtml then Failure(HTML_MESSAGE) else Failure(INVALID_MESSAGE)
  }

  lemma HtmlDiffersFromInvalid()
    ensures HTML_MESSAGE != INVALID_MESSAGE
  {
    assert HTML_MESSAGE[23] == 'H' && INVALID_MESSAGE[23] == 'a';
  }

  /** Leading whitespace in a body that does not parse does not change how it is classified. */
  lemma ClassificationIgnoresLeadingWhitespace(contentType: Option<string>, a: string, body: string, decode: string -> Option<Payload>)
    requires AllWhitespace(a)
    requires decode(body).None? && decode(a + body).None?
    ensures ParseNewsResponse(contentType, a + body, decode) == ParseNewsResponse(contentType, body, decode)
  {
    TrimStartIgnoresPadding(a, body);
  }

  /** The provider's filter: a non-empty title other than "[Removed]" and a non-empty url. */
  predicate Usable(a: RawArticle) {
    Present(a.title) && Present(a.url) && a.title.value != REMOVED_TITLE
  }

  /**
   * The provider's filter agrees with the schema's `toNewsItem` guard: every article the schema
   * converts is usable, and a usable article is converted unless its URL normalises to nothing.
   */
  lemma UsableMatchesSchema(a: RawArticle, now: string, codec: NewsSchema.UrlCodec)
    ensures NewsSchema.ToNewsItem(a, now, codec).Some? ==> Usable(a)
    ensures Usable(a) ==>
              (NewsSchema.ToNewsItem(a, now, codec).Some? <==> NewsSchema.NormalizeArticleUrl(a.url.value, codec) != [])
  {
  }

  /**
   * The item built from a kept article, with the source's defaults; for a usable article the
   * title and url defaults never apply.
   */
  function ToSavedItem(a: RawArticle, nowIso: string): (x: SavedNewsItem)
    ensures Usable(a) ==> x.title == a.title.value && x.url == a.url.value
    ensures x.sourceName == SourceNameOr(a, UNKNOWN_SOURCE)
    ensures x.publishedAt == OrElse(a.publishedAt, nowIso)
    ensures x.publishedAt != [] || nowIso == []
  {
    SavedNewsItem(OrElse(a.title, UNTITLED), OrElse(a.url, ""), SourceNameOr(a, UNKNOWN_SOURCE), OrElse(a.publishedAt, nowIso))
  }

  /**
   * `mapArticles`: the usable articles, sliced to `pageSize` as `Array.prototype.slice(0, n)` does
   * (a negative size counts from the end), each turned into an item; no dedup, no URL rewriting.
   */
  function MapArticles(articles: seq<RawArticle>, pageSize: int, nowIso: string): (r: seq<SavedNewsItem>)
    ensures var kept := Filter(articles, Usable);
            && |r| == SliceIndex(pageSize, |kept|)
            && forall k :: 0 <= k < |r| ==>
                 && r[k].title == kept[k].title.value
                 && r[k].url == kept[k].url.value
                 && r[k].sourceName == SourceNameOr(kept[k], UNKNOWN_SOURCE)
                 && r[k].publishedAt == OrElse(kept[k].publishedAt, nowIso)
  {
    var kept := Filter(articles, Usable);
    var sliced := SliceTo(kept, pageSize);
    assert forall k :: 0 <= k < |sliced| ==> sliced[k] == kept[k] && Usable(sliced[k]);
    seq(|sliced|, k requires 0 <= k < |sliced| => ToSavedItem(sliced[k], nowIso))
  }

  /** Each item comes from a usable input article, and the kept articles keep their input order. */
  lemma MapArticlesSound(articles: seq<RawArticle>, pageSize: int, nowIso: string)
    ensures forall k :: 0 <= k < |MapArticles(articles, pageSize, nowIso)| ==>
              exists a :: a in articles && Usable(a) && MapArticles(articles, pageSize, nowIso)[k] == ToSavedItem(a, nowIso)
    ensures IsSubsequence(Filter(articles, Usable), articles)
  {
    var kept := Filter(articles, Usable);
    var r := MapArticles(articles, pageSize, nowIso);
    forall k | 0 <= k < |r|
      ensures exists a :: a in articles && Usable(a) && r[k] == ToSavedItem(a, nowIso)
    {
      assert kept[k] in kept;
    }
  }

  /** A page size at least the number of usable articles keeps all of them. */
  lemma MapArticlesLength(articles: seq<RawArticle>, pageSize: int, nowIso: string)
    ensures pageSize >= 0 ==>
              |MapArticles(articles, pageSize, nowIso)| == Min(pageSize, |Filter(articles, Usable)|)
    ensures pageSize == 0 ==> MapArticles(articles, pageSize, nowIso) == []
  {
  }

  /** Unlike `mapArticlesToNewsItems`, the provider's mapper keeps duplicate articles. */
  lemma MapArticlesKeepsDuplicates(a: RawArticle, nowIso: string)
    requires Usable(a)
    ensures MapArticles([a, a], 2, nowIso) == [ToSavedItem(a, nowIso), ToSavedItem(a, nowIso)]
  {
    FilterAllKept([a, a], Usable);
  }

  /** The mapper does not rewrite URLs: surrounding spaces and tracking parameters stay. */
  lemma MapArticlesKeepsUrl(a: RawArticle, nowIso: string)
    requires Usable(a)
    ensures MapArticles([a], 1, nowIso) == [ToSavedItem(a, nowIso)]
    ensures MapArticles([a], 1, nowIso)[0].url == a.url.value
  {
    FilterAllKept([a], Usable);
  }

  // ---- The fallback loop ----

  /** What trying one endpoint came to: an error message, too few items with more to try, or the items. */
  datatype Step = Errored(message: string) | TooFew | Accepted(items: seq<SavedNewsItem>)

  /** The message recorded as `lastError` when a request rejects: the `Error`'s, or the generic one for any other value. */
  function RejectionMessage(error: Option<string>): (m: string)
    ensures error.Some? ==> m == error.value
    ensures error.None? ==> m == UNABLE_MESSAGE
  {
    if error.Some? then error.value else UNABLE_MESSAGE
  }

  /**
   * The body of the loop for one endpoint: build the query, send it, classify the response,
   * reject a non-ok status or payload status, map the articles and decide whether to move on.
   * The request is None when the query could not be built.
   */
  function Attempt(endpoint: Endpoint, p: Params, env: Env, hasNext: bool): (r: (Step, Option<Request>))
    ensures BuildQuery(endpoint, p, env.nowMs).Failure? ==> r == (Errored(MISSING_KEY_MESSAGE), None)
    ensures BuildQuery(endpoint, p, env.nowMs).Success? ==>
              r.1 == Some(Request(endpoint, BuildQuery(endpoint, p, env.nowMs).value))
    ensures r.0.TooFew? ==> hasNext
    ensures r.0.Accepted? && hasNext ==> |r.0.items| >= p.pageSize
  {
    match BuildQuery(endpoint, p, env.nowMs)
    case Failure(m) => (Errored(m), None)
    case Success(query) =>
      var request := Request(endpoint, query);
      var step :=
        match env.network(request)
        case Rejected(error) => Errored(RejectionMessage(error))
        case Received(ok, contentType, body) =>
          match ParseNewsResponse(contentType, body, env.decode)
          case Failure(m) => Errored(m)
          case Success(payload) =>
            if !ok || payload.status != Some("ok") then Errored(OrElse(payload.message, FETCH_FAILED_MESSAGE))
            else
              var mapped := MapArticles(payload.articles.GetOr([]), p.pageSize, env.nowIso);
              if |mapped| < p.pageSize && hasNext then TooFew else Accepted(mapped);
      (step, Some(request))
  }

  /** Where the loop stands: the accepted items (or none), the last error, the requests sent. */
  datatype LoopState = LoopState(mapped: seq<SavedNewsItem>, lastError: Option<string>, trace: seq<Request>)

  function Sent(request: Option<Request>): seq<Request> {
    if request.Some? then [request.value] else []
  }

  /** One call's attempts: the endpoint and whether another one follows, to what trying it came to. */
  function Attempts(p: Params, env: Env): (Endpoint, bool) -> (Step, Option<Request>) {
    (e, hasNext) => Attempt(e, p, env, hasNext)
  }

  /**
   * The loop from endpoint `i` on, for any way of trying an endpoint: an error is recorded and
   * the next endpoint tried, too few items move on, acceptance stops the loop.
   */
  function Fallback(endpoints: seq<Endpoint>, i: nat, attempt: (Endpoint, bool) -> (Step, Option<Request>),
                    lastError: Option<string>, trace: seq<Request>): LoopState
    decreases |endpoints| - i
  {
    if i >= |endpoints| then LoopState([], lastError, trace)
    else
      var a := attempt(endpoints[i], i < |endpoints| - 1);
      if a.0.Accepted? then LoopState(a.0.items, lastError, trace + Sent(a.1))
      else Fallback(endpoints, i + 1, attempt, NextError(a.0, lastError), trace + Sent(a.1))
  }

  /** `lastError` after a step that did not stop the loop. */
  function NextError(step: Step, lastError: Option<string>): Option<string> {
    if step.Errored? then Some(step.message) else lastError
  }

  /**
   * The error a call fails with. On web: the last error's message, or the generic one when
   * there is none or it is empty, followed by the deploy hint. Elsewhere the last error is
   * re-thrown as it is, even with an empty message.
   */
  function FailureMessage(isWeb: bool, lastError: Option<string>): (r: string)
    ensures isWeb ==> EndsWith(r, DEPLOY_HINT) && r[..|r| - |DEPLOY_HINT|] == OrElse(lastError, UNABLE_MESSAGE)
    ensures isWeb ==> |r| > |DEPLOY_HINT|
    ensures !isWeb && lastError.Some? ==> r == lastError.value
    ensures !isWeb && lastError.None? ==> r == UNABLE_MESSAGE
  {
    if isWeb then
      var m := OrElse(lastError, UNABLE_MESSAGE);
      assert m != [];
      assert (m + DEPLOY_HINT)[..|m|] == m;
      m + DEPLOY_HINT
    else if lastError.Some? then lastError.value else UNABLE_MESSAGE
  }

  /** An empty error message is replaced on web and kept as it is elsewhere. */
  lemma EmptyMessageOnlyReplacedOnWeb()
    ensures FailureMessage(true, Some("")) == UNABLE_MESSAGE + DEPLOY_HINT
    ensures FailureMessage(false, Some("")) == ""
  {
  }

  /** The call's outcome from the loop's final state. */
  function Conclude(isWeb: bool, st: LoopState): (r: (Result<seq<SavedNewsItem>, string>, seq<Request>))
    ensures r.1 == st.trace
    ensures r.0.Success? <==> st.mapped != []
    ensures r.0.Success? ==> r.0.value == st.mapped
    ensures r.0.Failure? ==> r.0.error == FailureMessage(isWeb, st.lastError)
  {
    (if st.mapped == [] then Failure(FailureMessage(isWeb, st.lastError)) else Success(st.mapped), st.trace)
  }

  /** `fetchTopHeadlines`: the result and the requests it sent, in order. */
  function FetchTopHeadlines(p: Params, env: Env): (r: (Result<seq<SavedNewsItem>, string>, seq<Request>))
    ensures r.0.Success? ==> r.0.value != []
  {
    Conclude(p.isWeb, Fallback(GetEndpoints(p.isWeb, p.newsApiKey), 0, Attempts(p, env), None, []))
  }

  /** `fetchTopHeadlines` as the source writes it: a counted loop with `continue` and `break`. */
  method FetchTopHeadlinesLoop(p: Params, env: Env) returns (result: Result<seq<SavedNewsItem>, string>, trace: seq<Request>)
    ensures (result, trace) == FetchTopHeadlines(p, env)
    ensures result.Success? ==> result.value != []
  {
    var endpoints := GetEndpoints(p.isWeb, p.newsApiKey);
    var attempt := Attempts(p, env);
    var mappedItems: seq<SavedNewsItem> := [];
    var lastError: Option<string> := None;
    trace := [];
    var i := 0;
    while i < |endpoints|
      invariant 0 <= i <= |endpoints|
      invariant Fallback(endpoints, 0, attempt, None, []) == Fallback(endpoints, i, attempt, lastError, trace)
    {
      var hasNext := i < |endpoints| - 1;
      var (step, request) := Attempt(endpoints[i], p, env, hasNext);
      assert (step, request) == attempt(endpoints[i], hasNext);
      assert Fallback(endpoints, i, attempt, lastError, trace)
             == if step.Accepted? then LoopState(step.items, lastError, trace + Sent(request))
                else Fallback(endpoints, i + 1, attempt, NextError(step, lastError), trace + Sent(request));
      trace := trace + Sent(request);
      i := i + 1;
      if step.Errored? {
        lastError := Some(step.message);
        continue;
      }
      if step.TooFew? {
        continue;
      }
      mappedItems := step.items;
      assert Fallback(endpoints, 0, attempt, None, []) == LoopState(mappedItems, lastError, trace);
      break;
    }
    if mappedItems == [] {
      result := Failure(FailureMessage(p.isWeb, lastError));
    } else {
      result := Success(mappedItems);
    }
  }

  function EndpointsOf(trace: seq<Request>): (r: seq<Endpoint>)
    ensures |r| == |trace|
    ensures forall k :: 0 <= k < |trace| ==> r[k] == trace[k].endpoint
  {
    seq(|trace|, k requires 0 <= k < |trace| => trace[k].endpoint)
  }

  /** Every request an attempt makes goes to the endpoint it was given. */
  ghost predicate RequestsOwnEndpoint(attempt: (Endpoint, bool) -> (Step, Option<Request>)) {
    forall e, hasNext :: attempt(e, hasNext).1.Some? ==> attempt(e, hasNext).1.value.endpoint == e
  }

  /**
   * The loop keeps the trace it starts with as a prefix, adds at most one request per remaining
   * endpoint, and either keeps `lastError` or ends with some error recorded.
   */
  lemma {:induction false} FallbackBounds(endpoints: seq<Endpoint>, i: nat, attempt: (Endpoint, bool) -> (Step, Option<Request>),
                                          lastError: Option<string>, trace: seq<Request>)
    requires i <= |endpoints|
    ensures var st := Fallback(endpoints, i, attempt, lastError, trace);
            && |trace| <= |st.trace| <= |trace| + |endpoints| - i
            && st.trace[..|trace|] == trace
            && (st.lastError == lastError || st.lastError.Some?)
    decreases |endpoints| - i
  {
    if i < |endpoints| {
      var a := attempt(endpoints[i], i < |endpoints| - 1);
      var trace1 := trace + Sent(a.1);
      if !a.0.Accepted? {
        FallbackBounds(endpoints, i + 1, attempt, NextError(a.0, lastError), trace1);
        var st := Fallback(endpoints, i + 1, attempt, NextError(a.0, lastError), trace1);
        assert st.trace[..|trace|] == st.trace[..|trace1|][..|trace|];
      }
    }
  }

  /** The loop only ever appends to the trace it starts with. */
  lemma {:induction false} FallbackShift(endpoints: seq<Endpoint>, i: nat, attempt: (Endpoint, bool) -> (Step, Option<Request>),
                                         lastError: Option<string>, trace: seq<Request>)
    ensures var st := Fallback(endpoints, i, attempt, lastError, []);
            Fallback(endpoints, i, attempt, lastError, trace) == st.(trace := trace + st.trace)
    decreases |endpoints| - i
  {
    if i >= |endpoints| {
      assert trace + [] == trace;
    } else {
      var a := attempt(endpoints[i], i < |endpoints| - 1);
      var sent := Sent(a.1);
      assert [] + sent == sent;
      if !a.0.Accepted? {
        var lastError1 := NextError(a.0, lastError);
        var next := Fallback(endpoints, i + 1, attempt, lastError1, []);
        var st := Fallback(endpoints, i, attempt, lastError, []);
        var whole := Fallback(endpoints, i, attempt, lastError, trace);
        assert st == Fallback(endpoints, i + 1, attempt, lastError1, sent);
        assert whole == Fallback(endpoints, i + 1, attempt, lastError1, trace + sent);
        FallbackShift(endpoints, i + 1, attempt, lastError1, sent);
        FallbackShift(endpoints, i + 1, attempt, lastError1, trace + sent);
        AppendAssoc(trace, sent, next.trace);
      }
    }
  }


  /** Started from an empty trace, the loop's requests visit the remaining endpoints in order, each at most once. */
  lemma {:induction false} FallbackTrace(endpoints: seq<Endpoint>, i: nat, attempt: (Endpoint, bool) -> (Step, Option<Request>),
                                         lastError: Option<string>)
    requires i <= |endpoints|
    requires RequestsOwnEndpoint(attempt)
    ensures IsSubsequence(EndpointsOf(Fallback(endpoints, i, attempt, lastError, []).trace), endpoints[i..])
    decreases |endpoints| - i
  {
    var trace := Fallback(endpoints, i, attempt, lastError, []).trace;
    if i == |endpoints| {
      assert trace == [];
    } else {
      var a := attempt(endpoints[i], i < |endpoints| - 1);
      var sent := Sent(a.1);
      var rest := FallbackRest(endpoints, i, attempt, lastError);
      if !a.0.Accepted? {
        FallbackTrace(endpoints, i + 1, attempt, NextError(a.0, lastError));
      } else {
        SubsequenceOfEmpty(endpoints[i + 1..]);
      }
      TraceStep(endpoints, i, sent, rest);
    }
  }

  /** What the loop sends after endpoint `i`: nothing once `i` is accepted, else the rest of the loop's requests. */
  function FallbackRest(endpoints: seq<Endpoint>, i: nat, attempt: (Endpoint, bool) -> (Step, Option<Request>),
                        lastError: Option<string>): (rest: seq<Request>)
    requires i < |endpoints|
    ensures Fallback(endpoints, i, attempt, lastError, []).trace == Sent(attempt(endpoints[i], i < |endpoints| - 1).1) + rest
    ensures attempt(endpoints[i], i < |endpoints| - 1).0.Accepted? ==> rest == []
    ensures !attempt(endpoints[i], i < |endpoints| - 1).0.Accepted? ==>
              rest == Fallback(endpoints, i + 1, attempt, NextError(attempt(endpoints[i], i < |endpoints| - 1).0, lastError), []).trace
  {
    var a := attempt(endpoints[i], i < |endpoints| - 1);
    assert [] + Sent(a.1) == Sent(a.1);
    if a.0.Accepted? then
      assert Sent(a.1) + [] == Sent(a.1);
      []
    else
      var lastError1 := NextError(a.0, lastError);
      FallbackShift(endpoints, i + 1, attempt, lastError1, Sent(a.1));
      Fallback(endpoints, i + 1, attempt, lastError1, []).trace
  }

  /** `r` is a request some attempt makes. */
  ghost predicate MadeByAttempt(attempt: (Endpoint, bool) -> (Step, Option<Request>), r: Request) {
    exists e, hasNext :: attempt(e, hasNext).1 == Some(r)
  }

  /** Every request the loop sends is one an attempt made. */
  lemma {:induction false} FallbackRequestsFromAttempts(endpoints: seq<Endpoint>, i: nat, attempt: (Endpoint, bool) -> (Step, Option<Request>),
                                                        lastError: Option<string>)
    requires i <= |endpoints|
    ensures var trace := Fallback(endpoints, i, attempt, lastError, []).trace;
            forall k :: 0 <= k < |trace| ==> MadeByAttempt(attempt, trace[k])
    decreases |endpoints| - i
  {
    var trace := Fallback(endpoints, i, attempt, lastError, []).trace;
    if i < |endpoints| {
      var a := attempt(endpoints[i], i < |endpoints| - 1);
      var sent := Sent(a.1);
      var rest := FallbackRest(endpoints, i, attempt, lastError);
      if !a.0.Accepted? {
        FallbackRequestsFromAttempts(endpoints, i + 1, attempt, NextError(a.0, lastError));
      }
      forall k | 0 <= k < |trace|
        ensures MadeByAttempt(attempt, trace[k])
      {
        if k < |sent| {
          assert attempt(endpoints[i], i < |endpoints| - 1).1 == Some(trace[k]);
        } else {
          assert !a.0.Accepted?;
          assert rest == Fallback(endpoints, i + 1, attempt, NextError(a.0, lastError), []).trace;
          assert MadeByAttempt(attempt, rest[k - |sent|]);
          assert trace[k] == rest[k - |sent|];
        }
      }
    }
  }

  /** One step of the order argument: a request to endpoint `i` followed by requests to later ones. */
  lemma TraceStep(endpoints: seq<Endpoint>, i: nat, sent: seq<Request>, rest: seq<Request>)
    requires i < |endpoints|
    requires sent == [] || (|sent| == 1 && sent[0].endpoint == endpoints[i])
    requires IsSubsequence(EndpointsOf(rest), endpoints[i + 1..])
    ensures IsSubsequence(EndpointsOf(sent + rest), endpoints[i..])
  {
    var e := endpoints[i..];
    assert e[1..] == endpoints[i + 1..];
    if sent == [] {
      assert sent + rest == rest;
      if EndpointsOf(rest) != [] {
        assert e != [];
      }
    } else {
      assert EndpointsOf(sent + rest) == [endpoints[i]] + EndpointsOf(rest);
      assert ([endpoints[i]] + EndpointsOf(rest))[1..] == EndpointsOf(rest);
    }
  }

  /** The requests of one call's attempts go to their own endpoints, with the query built for them. */
  lemma AttemptsRequests(p: Params, env: Env)
    ensures RequestsOwnEndpoint(Attempts(p, env))
    ensures forall e, hasNext, r :: Attempts(p, env)(e, hasNext).1 == Some(r) ==>
              BuildQuery(r.endpoint, p, env.nowMs) == Success(r.query)
  {
    forall e, hasNext ensures Attempts(p, env)(e, hasNext) == Attempt(e, p, env, hasNext) {
    }
  }

  /** No retries: one call's requests go to the platform's endpoints in list order, each at most once. */
  lemma NoRetries(p: Params, env: Env)
    ensures var trace := FetchTopHeadlines(p, env).1;
            && IsSubsequence(EndpointsOf(trace), GetEndpoints(p.isWeb, p.newsApiKey))
            && |trace| <= |GetEndpoints(p.isWeb, p.newsApiKey)|
            && (forall j, k :: 0 <= j < k < |trace| ==> trace[j].endpoint != trace[k].endpoint)
  {
    var endpoints := GetEndpoints(p.isWeb, p.newsApiKey);
    var trace := FetchTopHeadlines(p, env).1;
    AttemptsRequests(p, env);
    FallbackTrace(endpoints, 0, Attempts(p, env), None);
    assert endpoints[0..] == endpoints;
    SubsequenceLength(EndpointsOf(trace), endpoints);
    if |trace| == 2 {
      SubsequenceSameLength(EndpointsOf(trace), endpoints);
    }
  }

  /**
   * Every request of a call carries the query built for its endpoint, so the API key travels
   * only to the live API, and always with it.
   */
  lemma RequestsCarryTheirQuery(p: Params, env: Env)
    ensures var trace := FetchTopHeadlines(p, env).1;
            && (forall k :: 0 <= k < |trace| ==> BuildQuery(trace[k].endpoint, p, env.nowMs) == Success(trace[k].query))
            && (forall k :: 0 <= k < |trace| && trace[k].endpoint == Snapshot ==> Lookup(trace[k].query, "apiKey") == None)
            && (forall k :: 0 <= k < |trace| && trace[k].endpoint == Live ==> Lookup(trace[k].query, "apiKey") == p.newsApiKey)
  {
    var endpoints := GetEndpoints(p.isWeb, p.newsApiKey);
    var attempt := Attempts(p, env);
    var trace := FetchTopHeadlines(p, env).1;
    AttemptsRequests(p, env);
    FallbackRequestsFromAttempts(endpoints, 0, attempt, None);
    var fallbackTrace := Fallback(endpoints, 0, attempt, None, []).trace;
    assert trace == fallbackTrace;
    assert forall k :: 0 <= k < |Fallback(endpoints, 0, attempt, None, []).trace| ==> MadeByAttempt(attempt, Fallback(endpoints, 0, attempt, None, []).trace[k]);
    forall k | 0 <= k < |trace|
      ensures BuildQuery(trace[k].endpoint, p, env.nowMs) == Success(trace[k].query)
    {
      assert MadeByAttempt(attempt, fallbackTrace[k]);
      var e, hasNext :| attempt(e, hasNext).1 == Some(trace[k]);
    }
  }

  /** On native without a key the call fails with the missing-key error and sends nothing. */
  lemma NativeWithoutKey(p: Params, env: Env)
    requires !p.isWeb && !Present(p.newsApiKey)
    ensures FetchTopHeadlines(p, env) == (Failure(MISSING_KEY_MESSAGE), [])
  {
    var endpoints := GetEndpoints(p.isWeb, p.newsApiKey);
    assert endpoints == [Live];
    assert Attempts(p, env)(Live, false) == (Errored(MISSING_KEY_MESSAGE), None);
    assert Fallback(endpoints, 0, Attempts(p, env), None, []) == LoopState([], Some(MISSING_KEY_MESSAGE), []);
  }

  /**
   * The loop's result is one endpoint's accepted list, never a merge: the first endpoint whose
   * attempt was accepted.
   */
  lemma {:induction false} FallbackResultFromOneEndpoint(endpoints: seq<Endpoint>, i: nat, attempt: (Endpoint, bool) -> (Step, Option<Request>),
                                                         lastError: Option<string>, trace: seq<Request>)
    requires i <= |endpoints|
    ensures var st := Fallback(endpoints, i, attempt, lastError, trace);
            st.mapped != [] ==>
              exists j :: i <= j < |endpoints|
                && attempt(endpoints[j], j < |endpoints| - 1).0 == Accepted(st.mapped)
                && (forall k :: i <= k < j ==> !attempt(endpoints[k], k < |endpoints| - 1).0.Accepted?)
    decreases |endpoints| - i
  {
    if i < |endpoints| {
      var a := attempt(endpoints[i], i < |endpoints| - 1);
      if !a.0.Accepted? {
        FallbackResultFromOneEndpoint(endpoints, i + 1, attempt, NextError(a.0, lastError), trace + Sent(a.1));
      }
    }
  }

  /**
   * A successful call returns the items of exactly one endpoint's attempt, the first accepted
   * one; unless that endpoint was the last, the items fill a page.
   */
  lemma SuccessFromOneEndpoint(p: Params, env: Env)
    requires FetchTopHeadlines(p, env).0.Success?
    ensures var endpoints := GetEndpoints(p.isWeb, p.newsApiKey);
            var items := FetchTopHeadlines(p, env).0.value;
            exists j :: 0 <= j < |endpoints|
              && Attempt(endpoints[j], p, env, j < |endpoints| - 1).0 == Accepted(items)
              && (forall k :: 0 <= k < j ==> !Attempt(endpoints[k], p, env, k < |endpoints| - 1).0.Accepted?)
              && (j < |endpoints| - 1 ==> |items| >= p.pageSize)
  {
    var endpoints := GetEndpoints(p.isWeb, p.newsApiKey);
    FallbackResultFromOneEndpoint(endpoints, 0, Attempts(p, env), None, []);
    var j :| 0 <= j < |endpoints|
              && Attempts(p, env)(endpoints[j], j < |endpoints| - 1).0 == Accepted(FetchTopHeadlines(p, env).0.value)
              && (forall k :: 0 <= k < j ==> !Attempts(p, env)(endpoints[k], k < |endpoints| - 1).0.Accepted?);
    assert Attempt(endpoints[j], p, env, j < |endpoints| - 1).0 == Accepted(FetchTopHeadlines(p, env).0.value);
  }

  /** The loop over the two web endpoints, attempt by attempt. */
  lemma TwoEndpoints(attempt: (Endpoint, bool) -> (Step, Option<Request>))
    ensures var a := attempt(Snapshot, true);
            var b := attempt(Live, false);
            var st := Fallback([Snapshot, Live], 0, attempt, None, []);
            && (a.0.Accepted? ==> st == LoopState(a.0.items, None, Sent(a.1)))
            && (a.0.TooFew? && b.0.Accepted? ==> st == LoopState(b.0.items, None, Sent(a.1) + Sent(b.1)))
            && (a.0.TooFew? && b.0.Errored? ==> st == LoopState([], Some(b.0.message), Sent(a.1) + Sent(b.1)))
            && (a.0.Errored? && b.0.Accepted? ==> st == LoopState(b.0.items, Some(a.0.message), Sent(a.1) + Sent(b.1)))
            && (a.0.Errored? && b.0.Errored? ==> st == LoopState([], Some(b.0.message), Sent(a.1) + Sent(b.1)))
  {
    var a := attempt(Snapshot, true);
    assert [Snapshot, Live][0] == Snapshot && [Snapshot, Live][1] == Live;
    if !a.0.Accepted? {
      assert Fallback([Snapshot, Live], 0, attempt, None, [])
             == Fallback([Snapshot, Live], 1, attempt, NextError(a.0, None), Sent(a.1));
    }
  }

  /** The loop over a single endpoint. */
  lemma OneEndpoint(e: Endpoint, attempt: (Endpoint, bool) -> (Step, Option<Request>))
    ensures var a := attempt(e, false);
            var st := Fallback([e], 0, attempt, None, []);
            && (a.0.Accepted? ==> st == LoopState(a.0.items, None, Sent(a.1)))
            && (a.0.Errored? ==> st == LoopState([], Some(a.0.message), Sent(a.1)))
            && (a.0.TooFew? ==> st == LoopState([], None, Sent(a.1)))
  {
    assert [e][0] == e;
  }

  /** Web with a key, the snapshot short of a page and the live API answering: the live items, after two requests. */
  lemma SnapshotShortLiveAnswers(p: Params, env: Env, items: seq<SavedNewsItem>)
    requires p.isWeb && Present(p.newsApiKey)
    requires Attempt(Snapshot, p, env, true).0 == TooFew
    requires Attempt(Live, p, env, false).0 == Accepted(items) && items != []
    ensures FetchTopHeadlines(p, env).0 == Success(items)
    ensures EndpointsOf(FetchTopHeadlines(p, env).1) == [Snapshot, Live]
  {
    var attempt := Attempts(p, env);
    assert attempt(Snapshot, true) == Attempt(Snapshot, p, env, true);
    assert attempt(Live, false) == Attempt(Live, p, env, false);
    assert GetEndpoints(p.isWeb, p.newsApiKey) == [Snapshot, Live];
    AttemptsRequests(p, env);
    ShortThenAccepted(attempt, items);
  }

  /** The two-endpoint loop when the first answer is short and the second is accepted. */
  lemma ShortThenAccepted(attempt: (Endpoint, bool) -> (Step, Option<Request>), items: seq<SavedNewsItem>)
    requires RequestsOwnEndpoint(attempt)
    requires attempt(Snapshot, true).0 == TooFew && attempt(Snapshot, true).1.Some?
    requires attempt(Live, false).0 == Accepted(items) && attempt(Live, false).1.Some? && items != []
    ensures Conclude(true, Fallback([Snapshot, Live], 0, attempt, None, [])).0 == Success(items)
    ensures EndpointsOf(Conclude(true, Fallback([Snapshot, Live], 0, attempt, None, [])).1) == [Snapshot, Live]
  {
    var a := attempt(Snapshot, true);
    var b := attempt(Live, false);
    TwoEndpoints(attempt);
    var trace := Sent(a.1) + Sent(b.1);
    assert trace == [a.1.value, b.1.value];
    assert Fallback([Snapshot, Live], 0, attempt, None, []) == LoopState(items, None, trace);
  }

  /** A short snapshot list is discarded, not kept, when the live API then fails. */
  lemma ShortSnapshotDiscarded(p: Params, env: Env, m: string)
    requires p.isWeb && Present(p.newsApiKey)
    requires Attempt(Snapshot, p, env, true).0 == TooFew
    requires Attempt(Live, p, env, false).0 == Errored(m)
    ensures FetchTopHeadlines(p, env).0 == Failure(OrElse(Some(m), UNABLE_MESSAGE) + DEPLOY_HINT)
  {
    var attempt := Attempts(p, env);
    assert attempt(Snapshot, true) == Attempt(Snapshot, p, env, true);
    assert attempt(Live, false) == Attempt(Live, p, env, false);
    assert GetEndpoints(p.isWeb, p.newsApiKey) == [Snapshot, Live];
    TwoEndpoints(attempt);
  }

  /** Every endpoint failing on web: the last error with the deploy hint. */
  lemma WebAllFail(p: Params, env: Env, m1: string, m2: string)
    requires p.isWeb
    requires Attempt(Snapshot, p, env, Present(p.newsApiKey)).0 == Errored(m1)
    requires Present(p.newsApiKey) ==> Attempt(Live, p, env, false).0 == Errored(m2)
    ensures FetchTopHeadlines(p, env).0
            == Failure(OrElse(Some(if Present(p.newsApiKey) then m2 else m1), UNABLE_MESSAGE) + DEPLOY_HINT)
  {
    var attempt := Attempts(p, env);
    assert attempt(Snapshot, true) == Attempt(Snapshot, p, env, true);
    assert attempt(Snapshot, false) == Attempt(Snapshot, p, env, false);
    assert attempt(Live, false) == Attempt(Live, p, env, false);
    if Present(p.newsApiKey) {
      assert GetEndpoints(p.isWeb, p.newsApiKey) == [Snapshot, Live];
      TwoEndpoints(attempt);
    } else {
      assert GetEndpoints(p.isWeb, p.newsApiKey) == [Snapshot];
      OneEndpoint(Snapshot, attempt);
    }
  }

  /** An accepted empty list still fails the call, with the snapshot's earlier error. */
  lemma AcceptedEmptyFails(p: Params, env: Env, m: string)
    requires p.isWeb && Present(p.newsApiKey)
    requires Attempt(Snapshot, p, env, true).0 == Errored(m)
    requires Attempt(Live, p, env, false).0 == Accepted([])
    ensures FetchTopHeadlines(p, env).0 == Failure(OrElse(Some(m), UNABLE_MESSAGE) + DEPLOY_HINT)
  {
    var attempt := Attempts(p, env);
    assert attempt(Snapshot, true) == Attempt(Snapshot, p, env, true);
    assert attempt(Live, false) == Attempt(Live, p, env, false);
    assert GetEndpoints(p.isWeb, p.newsApiKey) == [Snapshot, Live];
    TwoEndpoints(attempt);
  }

  /** On native the error is re-thrown as it is, without the hint. */
  lemma NativeFailure(p: Params, env: Env, m: string)
    requires !p.isWeb
    requires Attempt(Live, p, env, false).0 == Errored(m)
    ensures FetchTopHeadlines(p, env).0 == Failure(m)
  {
    var attempt := Attempts(p, env);
    assert attempt(Live, false) == Attempt(Live, p, env, false);
    assert GetEndpoints(p.isWeb, p.newsApiKey) == [Live];
    OneEndpoint(Live, attempt);
  }

  /** A non-ok status or payload status fails the attempt with the payload's message, else the generic one. */
  lemma StatusFailure(endpoint: Endpoint, p: Params, env: Env, hasNext: bool, contentType: Option<string>, body: string, ok: bool, payload: Payload)
    requires BuildQuery(endpoint, p, env.nowMs).Success?
    requires env.network(Request(endpoint, BuildQuery(endpoint, p, env.nowMs).value)) == Received(ok, contentType, body)
    requires env.decode(body) == Some(payload)
    requires !ok || payload.status != Some("ok")
    ensures Attempt(endpoint, p, env, hasNext).0 == Errored(OrElse(payload.message, FETCH_FAILED_MESSAGE))
  {
  }

  /** A body that does not parse fails the attempt with the classification's message. */
  lemma ParseFailure(endpoint: Endpoint, p: Params, env: Env, hasNext: bool, contentType: Option<string>, body: string, ok: bool)
    requires BuildQuery(endpoint, p, env.nowMs).Success?
    requires env.network(Request(endpoint, BuildQuery(endpoint, p, env.nowMs).value)) == Received(ok, contentType, body)
    requires env.decode(body).None?
    ensures Attempt(endpoint, p, env, hasNext).0 == Errored(ParseNewsResponse(contentType, body, env.decode).error)
  {
  }

  /**
   * Before the last endpoint an ok payload moves the loop on exactly when its mapped list is
   * shorter than the page size, and is accepted otherwise.
   */
  lemma OkPayloadWithNext(endpoint: Endpoint, p: Params, env: Env, contentType: Option<string>, body: string, payload: Payload)
    requires BuildQuery(endpoint, p, env.nowMs).Success?
    requires env.network(Request(endpoint, BuildQuery(endpoint, p, env.nowMs).value)) == Received(true, contentType, body)
    requires env.decode(body) == Some(payload) && payload.status == Some("ok")
    ensures var mapped := MapArticles(payload.articles.GetOr([]), p.pageSize, env.nowIso);
            && (Attempt(endpoint, p, env, true).0 == TooFew <==> |mapped| < p.pageSize)
            && (|mapped| >= p.pageSize ==> Attempt(endpoint, p, env, true).0 == Accepted(mapped))
  {
  }

  /** A request that rejects fails the attempt with the `Error`'s message, or the generic one. */
  lemma RejectedFailure(endpoint: Endpoint, p: Params, env: Env, hasNext: bool, error: Option<string>)
    requires BuildQuery(endpoint, p, env.nowMs).Success?
    requires env.network(Request(endpoint, BuildQuery(endpoint, p, env.nowMs).value)) == Rejected(error)
    ensures Attempt(endpoint, p, env, hasNext).0 == Errored(if error.Some? then error.value else UNABLE_MESSAGE)
  {
  }

  /** A short list moves the loop on without touching `lastError`; an error replaces it. */
  lemma FallbackMovesOn(endpoints: seq<Endpoint>, i: nat, attempt: (Endpoint, bool) -> (Step, Option<Request>),
                        lastError: Option<string>, trace: seq<Request>)
    requires i < |endpoints|
    ensures var a := attempt(endpoints[i], i < |endpoints| - 1);
            && (a.0.TooFew? ==>
                  Fallback(endpoints, i, attempt, lastError, trace) == Fallback(endpoints, i + 1, attempt, lastError, trace + Sent(a.1)))
            && (a.0.Errored? ==>
                  Fallback(endpoints, i, attempt, lastError, trace)
                  == Fallback(endpoints, i + 1, attempt, Some(a.0.message), trace + Sent(a.1)))
  {
  }

  /** An ok payload is accepted on the last endpoint whatever its length. */
  lemma LastEndpointAccepts(endpoint: Endpoint, p: Params, env: Env, contentType: Option<string>, body: string, payload: Payload)
    requires BuildQuery(endpoint, p, env.nowMs).Success?
    requires env.network(Request(endpoint, BuildQuery(endpoint, p, env.nowMs).value)) == Received(true, contentType, body)
    requires env.decode(body) == Some(payload) && payload.status == Some("ok")
    ensures Attempt(endpoint, p, env, false).0 == Accepted(MapArticles(payload.articles.GetOr([]), p.pageSize, env.nowIso))
  {
  }
}
