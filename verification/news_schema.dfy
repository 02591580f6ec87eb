/**
 * Article identity and normalisation: canonical article URLs, stable ids, validation of raw
 * feed records into news items, and the first-occurrence-wins, page-capped batch mapping.
 */
module NewsSchema {
  import opened Wrappers
  import opened Seqs
  import opened Text
  import opened Articles
  import Hash

  /**
   * A parsed URL, as the fields of a WHATWG `URL` object expose it. `hasOpaquePath` marks a URL
   * whose path is opaque (`mailto:a`, `urn:x`): the `pathname` and `hostname` setters leave such
   * a URL alone.
   */
  datatype Url = Url(
    hasOpaquePath: bool,
    protocol: string,
    username: string,
    password: string,
    hostname: string,
    port: string,
    pathname: string,
    searchParams: seq<(string, string)>,
    fragment: Option<string>)

  /**
   * The WHATWG URL parser (None where `new URL` throws) and serialiser (`toString`),
   * left uninterpreted.
   */
  datatype UrlCodec = UrlCodec(parse: string -> Option<Url>, serialize: Url -> string)

  datatype NewsItem = NewsItem(id: string, title: string, url: string, sourceName: string, publishedAt: string)

  const TRACKING_QUERY_PARAMS: set<string> :=
    {"utm_source", "utm_medium", "utm_campaign", "utm_term", "utm_content", "gclid", "fbclid"}

  const GENERATED_PREFIX: string := "generated:"

  predicate IsTrackingKey(key: string) {
    ToLower(key) in TRACKING_QUERY_PARAMS
  }

  /** Whether a key is tracking depends only on its lower-cased spelling. */
  lemma TrackingKeyIgnoresCase(k1: string, k2: string)
    requires ToLower(k1) == ToLower(k2)
    ensures IsTrackingKey(k1) <==> IsTrackingKey(k2)
  {
  }

  /** A key is tracking exactly when its lower-cased form is one of the listed names. */
  lemma TrackingKeyExamples()
    ensures IsTrackingKey("UTM_Source") && IsTrackingKey("gclid") && IsTrackingKey("FBCLID")
    ensures !IsTrackingKey("id") && !IsTrackingKey("utm")
  {
    assert ToLower("UTM_Source") == "utm_source";
    assert ToLower("FBCLID") == "fbclid";
    assert ToLower("gclid") == "gclid";
    assert ToLower("id") == "id";
    assert ToLower("utm") == "utm";
  }

  predicate KeepParam(p: (string, string)) {
    !IsTrackingKey(p.0)
  }

  /** The query parameters minus the tracking ones, in their original order. */
  function FilterTracking(params: seq<(string, string)>): (r: seq<(string, string)>)
    ensures forall i :: 0 <= i < |r| ==> !IsTrackingKey(r[i].0)
    ensures forall i :: 0 <= i < |params| && !IsTrackingKey(params[i].0) ==> params[i] in r
    ensures forall p: (string, string) :: !IsTrackingKey(p.0) ==> multiset(r)[p] == multiset(params)[p]
    ensures IsSubsequence(r, params)
  {
    var r := Filter(params, KeepParam);
    assert forall i :: 0 <= i < |r| ==> r[i] in r && KeepParam(r[i]);
    assert forall i :: 0 <= i < |params| && KeepParam(params[i]) ==> multiset(r)[params[i]] > 0;
    r
  }

  /** Drops one trailing '/' from a path, unless the path is exactly "/". */
  function StripTrailingSlash(path: string): (r: string)
    ensures EndsWith(path, "/") && path != "/" ==> r + "/" == path
    ensures !(EndsWith(path, "/") && path != "/") ==> r == path
  {
    if EndsWith(path, "/") && path != "/" then path[..|path| - 1] else path
  }

  /** Exactly one slash goes: a path and the same path plus one slash end up equal. */
  lemma StripOneSlash(path: string)
    requires path != [] && !EndsWith(path, "/")
    ensures StripTrailingSlash(path + "/") == path
    ensures StripTrailingSlash(path) == path
  {
    assert (path + "/")[..|path|] == path;
  }

  /** What normalisation does to a parsed URL before it is serialised again. */
  function NormalizeRecord(u: Url): (v: Url)
    ensures v.fragment == None
    ensures v.protocol == ToLower(u.protocol) && v.hostname == ToLower(u.hostname)
    ensures forall i :: 0 <= i < |v.searchParams| ==> !IsTrackingKey(v.searchParams[i].0)
    ensures forall i :: 0 <= i < |u.searchParams| && !IsTrackingKey(u.searchParams[i].0) ==> u.searchParams[i] in v.searchParams
    ensures IsSubsequence(v.searchParams, u.searchParams)
    ensures !u.hasOpaquePath && EndsWith(u.pathname, "/") && u.pathname != "/" ==> v.pathname + "/" == u.pathname
    ensures u.hasOpaquePath || !(EndsWith(u.pathname, "/") && u.pathname != "/") ==> v.pathname == u.pathname
    ensures v.hasOpaquePath == u.hasOpaquePath
    ensures v.username == u.username && v.password == u.password && v.port == u.port
  {
    u.(fragment := None,
       protocol := ToLower(u.protocol),
       hostname := ToLower(u.hostname),
       searchParams := FilterTracking(u.searchParams),
       pathname := NormalPath(u))
  }

  /** The path after normalisation: a hierarchical path loses one trailing slash, an opaque one is kept. */
  function NormalPath(u: Url): string {
    if u.hasOpaquePath then u.pathname else StripTrailingSlash(u.pathname)
  }

  /** `normalizeArticleUrl`. */
  function NormalizeArticleUrl(rawUrl: string, codec: UrlCodec): (r: string)
    ensures AllWhitespace(rawUrl) ==> r == []
    ensures !AllWhitespace(rawUrl) && codec.parse(Trim(rawUrl)).None? ==> r == ToLower(Trim(rawUrl)) && r != []
    ensures !AllWhitespace(rawUrl) && codec.parse(Trim(rawUrl)).Some? ==>
              r == codec.serialize(NormalizeRecord(codec.parse(Trim(rawUrl)).value))
  {
    var trimmed := Trim(rawUrl);
    TrimEmptyIff(rawUrl);
    if trimmed == [] then []
    else
      match codec.parse(trimmed)
      case None => ToLower(trimmed)
      case Some(parsed) => codec.serialize(NormalizeRecord(parsed))
  }

  /**
   * Two parsed URLs that differ only in fragment, scheme/host case, tracking parameters and,
   * for a hierarchical path, one trailing slash.
   */
  ghost predicate SameUpToNoise(u1: Url, u2: Url) {
    && ToLower(u1.protocol) == ToLower(u2.protocol)
    && ToLower(u1.hostname) == ToLower(u2.hostname)
    && FilterTracking(u1.searchParams) == FilterTracking(u2.searchParams)
    && u1.hasOpaquePath == u2.hasOpaquePath
    && NormalPath(u1) == NormalPath(u2)
    && u1.username == u2.username && u1.password == u2.password && u1.port == u2.port
  }

  /** URLs that parse to records equal up to noise normalise to the same text. */
  lemma NormalizeIgnoresNoise(raw1: string, raw2: string, codec: UrlCodec)
    requires !AllWhitespace(raw1) && !AllWhitespace(raw2)
    requires codec.parse(Trim(raw1)).Some? && codec.parse(Trim(raw2)).Some?
    requires SameUpToNoise(codec.parse(Trim(raw1)).value, codec.parse(Trim(raw2)).value)
    ensures NormalizeArticleUrl(raw1, codec) == NormalizeArticleUrl(raw2, codec)
  {
    var u1 := codec.parse(Trim(raw1)).value;
    var u2 := codec.parse(Trim(raw2)).value;
    assert NormalizeRecord(u1) == NormalizeRecord(u2);
    TrimEmptyIff(raw1);
    TrimEmptyIff(raw2);
  }

  /** `createStableNewsId`: the normalised URL, else a hash of title and date; never empty. */
  function CreateStableNewsId(article: RawArticle, codec: UrlCodec): (id: string)
    ensures id != []
    ensures NormalizeArticleUrl(OrElse(article.url, ""), codec) != [] ==>
              id == NormalizeArticleUrl(OrElse(article.url, ""), codec)
    ensures NormalizeArticleUrl(OrElse(article.url, ""), codec) == [] ==>
              id == GENERATED_PREFIX + Hash.SimpleHash(FallbackKey(article))
  {
    var normalizedUrl := NormalizeArticleUrl(OrElse(article.url, ""), codec);
    if normalizedUrl != [] then normalizedUrl
    else GENERATED_PREFIX + Hash.SimpleHash(FallbackKey(article))
  }

  /** The text hashed when an article has no usable URL. */
  function FallbackKey(article: RawArticle): string {
    OrElse(article.title, "untitled") + "|" + OrElse(article.publishedAt, "no-date")
  }

  /** Articles whose URLs agree up to noise get the same id, whatever their titles and dates. */
  lemma IdIgnoresNoise(a1: RawArticle, a2: RawArticle, codec: UrlCodec)
    requires a1.url.Some? && a2.url.Some?
    requires !AllWhitespace(a1.url.value) && !AllWhitespace(a2.url.value)
    requires codec.parse(Trim(a1.url.value)).Some? && codec.parse(Trim(a2.url.value)).Some?
    requires SameUpToNoise(codec.parse(Trim(a1.url.value)).value, codec.parse(Trim(a2.url.value)).value)
    requires NormalizeArticleUrl(a1.url.value, codec) != []
    ensures CreateStableNewsId(a1, codec) == CreateStableNewsId(a2, codec)
  {
    NormalizeIgnoresNoise(a1.url.value, a2.url.value, codec);
  }

  /** Without a URL, articles with the same title and date collide by design. */
  lemma GeneratedIdDependsOnTitleAndDate(a1: RawArticle, a2: RawArticle, codec: UrlCodec)
    requires !Present(a1.url) && !Present(a2.url)
    requires FallbackKey(a1) == FallbackKey(a2)
    ensures CreateStableNewsId(a1, codec) == CreateStableNewsId(a2, codec)
    ensures StartsWith(CreateStableNewsId(a1, codec), GENERATED_PREFIX)
  {
    var h := Hash.SimpleHash(FallbackKey(a1));
    assert CreateStableNewsId(a1, codec) == GENERATED_PREFIX + h by {
      NoUrlNormalizesToNothing(a1, codec);
    }
    assert CreateStableNewsId(a2, codec) == GENERATED_PREFIX + h by {
      NoUrlNormalizesToNothing(a2, codec);
    }
    assert (GENERATED_PREFIX + h)[..|GENERATED_PREFIX|] == GENERATED_PREFIX;
  }

  /** A missing or empty URL normalises to nothing. */
  lemma NoUrlNormalizesToNothing(a: RawArticle, codec: UrlCodec)
    requires !Present(a.url)
    ensures NormalizeArticleUrl(OrElse(a.url, ""), codec) == []
  {
    assert OrElse(a.url, "") == "";
    assert AllWhitespace("");
  }

  /** `toNewsItem`: None for a missing or empty title or url, a removed title, or a URL that normalises to nothing. */
  function ToNewsItem(article: RawArticle, now: string, codec: UrlCodec): (r: Option<NewsItem>)
    ensures r.None? <==>
              || !Present(article.title) || !Present(article.url)
              || article.title.value == REMOVED_TITLE
              || NormalizeArticleUrl(article.url.value, codec) == []
    ensures r.Some? ==>
              && r.value.title == article.title.value
              && r.value.url == NormalizeArticleUrl(article.url.value, codec)
              && r.value.id == r.value.url
              && r.value.sourceName == SourceNameOr(article, UNKNOWN_SOURCE)
              && r.value.publishedAt == OrElse(article.publishedAt, now)
  {
    if !Present(article.title) || !Present(article.url) || article.title.value == REMOVED_TITLE then None
    else
      var normalizedUrl := NormalizeArticleUrl(article.url.value, codec);
      if normalizedUrl == [] then None
      else
        Some(NewsItem(
          CreateStableNewsId(article, codec),
          article.title.value,
          normalizedUrl,
          SourceNameOr(article, UNKNOWN_SOURCE),
          OrElse(article.publishedAt, now)))
  }

  /** `toNewsItem` with the clock reading and URL codec fixed, as one conversion function. */
  function Converter(now: string, codec: UrlCodec): RawArticle -> Option<NewsItem> {
    a => ToNewsItem(a, now, codec)
  }

  /** The items of the articles that `convert` accepts, in input order. */
  function ValidItems(articles: seq<RawArticle>, convert: RawArticle -> Option<NewsItem>): (r: seq<NewsItem>)
    ensures |r| <= |articles|
    decreases |articles|
  {
    if articles == [] then []
    else
      var front := ValidItems(articles[..|articles| - 1], convert);
      match convert(articles[|articles| - 1])
      case Some(x) => front + [x]
      case None => front
  }

  /** Every valid item is the conversion of some input article. */
  lemma {:induction false} ValidItemsSound(articles: seq<RawArticle>, convert: RawArticle -> Option<NewsItem>)
    ensures forall k :: 0 <= k < |ValidItems(articles, convert)| ==>
              exists j :: 0 <= j < |articles| && convert(articles[j]) == Some(ValidItems(articles, convert)[k])
    decreases |articles|
  {
    if articles != [] {
      var front := articles[..|articles| - 1];
      ValidItemsSound(front, convert);
      var v := ValidItems(articles, convert);
      forall k | 0 <= k < |v|
        ensures exists j :: 0 <= j < |articles| && convert(articles[j]) == Some(v[k])
      {
        if k < |ValidItems(front, convert)| {
          var j :| 0 <= j < |front| && convert(front[j]) == Some(ValidItems(front, convert)[k]);
          assert articles[j] == front[j];
        } else {
          assert convert(articles[|articles| - 1]) == Some(v[k]);
        }
      }
    } else {
      assert ValidItems(articles, convert) == [];
    }
  }

  /** One more article extends the valid items by its conversion, if any. */
  lemma ValidItemsStep(articles: seq<RawArticle>, i: nat, convert: RawArticle -> Option<NewsItem>)
    requires i < |articles|
    ensures convert(articles[i]).None? ==> ValidItems(articles[..i + 1], convert) == ValidItems(articles[..i], convert)
    ensures convert(articles[i]).Some? ==>
              ValidItems(articles[..i + 1], convert) == ValidItems(articles[..i], convert) + [convert(articles[i]).value]
  {
    assert articles[..i + 1][..i] == articles[..i];
  }

  /** The valid items of a prefix are a prefix of the valid items. */
  lemma {:induction false} ValidItemsPrefix(articles: seq<RawArticle>, i: nat, convert: RawArticle -> Option<NewsItem>)
    requires i <= |articles|
    ensures |ValidItems(articles[..i], convert)| <= |ValidItems(articles, convert)|
    ensures ValidItems(articles[..i], convert) == ValidItems(articles, convert)[..|ValidItems(articles[..i], convert)|]
    decreases |articles| - i
  {
    if i < |articles| {
      ValidItemsPrefix(articles, i + 1, convert);
      assert articles[..i + 1][..i] == articles[..i];
      var v := ValidItems(articles[..i], convert);
      var v1 := ValidItems(articles[..i + 1], convert);
      assert v1 == v || v1 == v + [v1[|v1| - 1]];
      assert v1[..|v|] == v;
    } else {
      assert articles[..i] == articles;
    }
  }

  function IdsOf(s: seq<NewsItem>): set<string> {
    set x | x in s :: x.id
  }

  ghost predicate DistinctIds(s: seq<NewsItem>) {
    forall i, j :: 0 <= i < j < |s| ==> s[i].id != s[j].id
  }

  /** First occurrence wins: each id is kept once, at its earliest item. */
  function DedupById(s: seq<NewsItem>): (r: seq<NewsItem>)
    ensures IdsOf(r) == IdsOf(s)
    ensures DistinctIds(r)
    ensures IsSubsequence(r, s)
    decreases |s|
  {
    if s == [] then []
    else
      var front := s[..|s| - 1];
      var x := s[|s| - 1];
      var d := DedupById(front);
      assert s == front + [x];
      assert IdsOf(s) == IdsOf(front) + {x.id};
      SubsequenceAppend(d, front, x);
      if x.id in IdsOf(d) then d
      else
        assert IdsOf(d + [x]) == IdsOf(d) + {x.id};
        d + [x]
  }

  /** Dedup of one more item: it is appended exactly when its id is new. */
  lemma DedupStep(s: seq<NewsItem>, x: NewsItem)
    ensures x.id in IdsOf(DedupById(s)) ==> DedupById(s + [x]) == DedupById(s)
    ensures x.id !in IdsOf(DedupById(s)) ==> DedupById(s + [x]) == DedupById(s) + [x]
  {
    assert (s + [x])[..|s|] == s;
  }

  /** The earliest item carrying each id is the one kept. */
  lemma {:induction false} DedupKeepsFirst(s: seq<NewsItem>, j: nat)
    requires j < |s|
    requires forall k :: 0 <= k < j ==> s[k].id != s[j].id
    ensures s[j] in DedupById(s)
    decreases |s|
  {
    var front := s[..|s| - 1];
    if j < |s| - 1 {
      DedupKeepsFirst(front, j);
    } else {
      assert s[j].id !in IdsOf(front);
    }
  }

  /** Dedup of a prefix is a prefix of dedup of the whole: the loop never revises what it kept. */
  lemma {:induction false} DedupPrefix(s: seq<NewsItem>, i: nat)
    requires i <= |s|
    ensures |DedupById(s[..i])| <= |DedupById(s)|
    ensures DedupById(s[..i]) == DedupById(s)[..|DedupById(s[..i])|]
    decreases |s| - i
  {
    if i < |s| {
      DedupPrefix(s, i + 1);
      assert s[..i + 1][..i] == s[..i];
      var d := DedupById(s[..i]);
      var d1 := DedupById(s[..i + 1]);
      assert d1 == d || d1 == d + [s[i]];
      assert d1[..|d|] == d;
      var full := DedupById(s);
      assert |d| <= |d1| <= |full|;
      assert full[..|d1|][..|d|] == full[..|d|];
    } else {
      assert s[..i] == s;
    }
  }

  /** The page cap the loop enforces: its break test follows the push, so at least one item is taken. */
  function Cap(pageSize: int): nat {
    if pageSize >= 1 then pageSize else 1
  }

  /**
   * Independent description of `mapArticlesToNewsItems`: valid items, duplicates by id
   * dropped with the first occurrence kept, then the first `Cap(pageSize)` of them.
   */
  function ReferenceMapping(articles: seq<RawArticle>, pageSize: int, convert: RawArticle -> Option<NewsItem>): seq<NewsItem> {
    var d := DedupById(ValidItems(articles, convert));
    if |d| <= Cap(pageSize) then d else d[..Cap(pageSize)]
  }

  lemma PrefixOfMapping(articles: seq<RawArticle>, i: nat, convert: RawArticle -> Option<NewsItem>)
    requires i <= |articles|
    ensures |DedupById(ValidItems(articles[..i], convert))| <= |DedupById(ValidItems(articles, convert))|
    ensures DedupById(ValidItems(articles[..i], convert))
            == DedupById(ValidItems(articles, convert))[..|DedupById(ValidItems(articles[..i], convert))|]
  {
    var v := ValidItems(articles, convert);
    var vi := ValidItems(articles[..i], convert);
    ValidItemsPrefix(articles, i, convert);
    assert v[..|vi|] == vi;
    DedupPrefix(v, |vi|);
  }

  /** A full page of leading deduplicated items is the reference result. */
  lemma ReferenceOfFullPage(articles: seq<RawArticle>, pageSize: int, convert: RawArticle -> Option<NewsItem>, items: seq<NewsItem>)
    requires |items| == Cap(pageSize)
    requires |items| <= |DedupById(ValidItems(articles, convert))|
    requires items == DedupById(ValidItems(articles, convert))[..|items|]
    ensures items == ReferenceMapping(articles, pageSize, convert)
  {
  }

  /** Running through every article without filling the page yields the reference result. */
  lemma ReferenceOfShortPage(articles: seq<RawArticle>, pageSize: int, convert: RawArticle -> Option<NewsItem>, items: seq<NewsItem>)
    requires items == DedupById(ValidItems(articles[..|articles|], convert))
    requires |items| < Cap(pageSize)
    ensures items == ReferenceMapping(articles, pageSize, convert)
  {
    assert articles[..|articles|] == articles;
  }

  /** One iteration of the loop keeps `items` the deduplicated valid items seen so far. */
  lemma LoopStep(articles: seq<RawArticle>, i: nat, convert: RawArticle -> Option<NewsItem>, items: seq<NewsItem>, seen: set<string>)
    requires i < |articles|
    requires items == DedupById(ValidItems(articles[..i], convert))
    requires seen == IdsOf(items)
    ensures convert(articles[i]).None? || convert(articles[i]).value.id in seen ==>
              items == DedupById(ValidItems(articles[..i + 1], convert))
    ensures convert(articles[i]).Some? && convert(articles[i]).value.id !in seen ==>
              && items + [convert(articles[i]).value] == DedupById(ValidItems(articles[..i + 1], convert))
              && seen + {convert(articles[i]).value.id} == IdsOf(items + [convert(articles[i]).value])
  {
    ValidItemsStep(articles, i, convert);
    if convert(articles[i]).Some? {
      var x := convert(articles[i]).value;
      DedupStep(ValidItems(articles[..i], convert), x);
      assert IdsOf(items + [x]) == IdsOf(items) + {x.id};
    }
  }

  /** `mapArticlesToNewsItems`, as the source's loop with its `seen` set and early break. */
  method MapArticlesToNewsItems(articles: seq<RawArticle>, pageSize: int, now: string, codec: UrlCodec)
    returns (items: seq<NewsItem>)
    ensures items == ReferenceMapping(articles, pageSize, Converter(now, codec))
    ensures DistinctIds(items)
    ensures |items| <= Cap(pageSize)
  {
    items := MapWith(articles, pageSize, Converter(now, codec));
  }

  /** The loop of `mapArticlesToNewsItems` for any conversion of articles into items. */
  method MapWith(articles: seq<RawArticle>, pageSize: int, convert: RawArticle -> Option<NewsItem>)
    returns (items: seq<NewsItem>)
    ensures items == ReferenceMapping(articles, pageSize, convert)
    ensures DistinctIds(items)
    ensures |items| <= Cap(pageSize)
  {
    var seen: set<string> := {};
    items := [];
    var full := false;
    var i := 0;
    while i < |articles|
      invariant !full
      invariant 0 <= i <= |articles|
      invariant items == DedupById(ValidItems(articles[..i], convert))
      invariant seen == IdsOf(items)
      invariant |items| < Cap(pageSize)
    {
      var item := convert(articles[i]);
      LoopStep(articles, i, convert, items, seen);
      i := i + 1;
      if item.None? {
        continue;
      }
      if item.value.id in seen {
        continue;
      }
      seen := seen + {item.value.id};
      items := items + [item.value];
      if |items| >= pageSize {
        PrefixOfMapping(articles, i, convert);
        ReferenceOfFullPage(articles, pageSize, convert, items);
        full := true;
        break;
      }
    }
    if !full {
      ReferenceOfShortPage(articles, pageSize, convert, items);
    }
  }

  /** Dedup never reorders: the first item always survives in front. */
  lemma {:induction false} DedupHead(s: seq<NewsItem>)
    requires s != []
    ensures DedupById(s) != [] && DedupById(s)[0] == s[0]
    decreases |s|
  {
    if |s| > 1 {
      var front := s[..|s| - 1];
      DedupHead(front);
    }
  }

  /** The batch result: distinct ids, an order-preserving selection of the valid items, and the page bound. */
  lemma MappingShape(articles: seq<RawArticle>, pageSize: int, convert: RawArticle -> Option<NewsItem>)
    ensures DistinctIds(ReferenceMapping(articles, pageSize, convert))
    ensures IsSubsequence(ReferenceMapping(articles, pageSize, convert), ValidItems(articles, convert))
    ensures pageSize >= 1 ==> |ReferenceMapping(articles, pageSize, convert)| <= pageSize
    ensures pageSize < 1 ==> |ReferenceMapping(articles, pageSize, convert)| <= 1
    ensures |ReferenceMapping(articles, pageSize, convert)| < Cap(pageSize) ==>
              ReferenceMapping(articles, pageSize, convert) == DedupById(ValidItems(articles, convert))
  {
    var v := ValidItems(articles, convert);
    var d := DedupById(v);
    var r := ReferenceMapping(articles, pageSize, convert);
    if |d| > Cap(pageSize) {
      assert d == r + d[Cap(pageSize)..];
      PrefixIsSubsequence(r, d[Cap(pageSize)..]);
      SubsequenceTransitive(r, d, v);
    }
  }

  /** A page size of one yields exactly the first valid item; a non-positive one at most that item. */
  lemma MappingFirstItem(articles: seq<RawArticle>, pageSize: int, convert: RawArticle -> Option<NewsItem>)
    requires pageSize <= 1
    requires ValidItems(articles, convert) != []
    ensures ReferenceMapping(articles, pageSize, convert) == [ValidItems(articles, convert)[0]]
  {
    DedupHead(ValidItems(articles, convert));
  }

  /** When the page is not filled, every id's earliest valid item is in the result. */
  lemma MappingKeepsFirstOccurrences(articles: seq<RawArticle>, pageSize: int, convert: RawArticle -> Option<NewsItem>, j: nat)
    requires j < |ValidItems(articles, convert)|
    requires forall k :: 0 <= k < j ==> ValidItems(articles, convert)[k].id != ValidItems(articles, convert)[j].id
    requires |DedupById(ValidItems(articles, convert))| <= Cap(pageSize)
    ensures ValidItems(articles, convert)[j] in ReferenceMapping(articles, pageSize, convert)
  {
    DedupKeepsFirst(ValidItems(articles, convert), j);
  }

  /** The record of the first URL in the tracking-parameter unit test, and of the second. */
  const STORY_A: Url := Url(false, "https:", "", "", "Example.com", "", "/news/story", [("utm_source", "x"), ("id", "123")], None)
  const STORY_B: Url := Url(false, "https:", "", "", "example.com", "", "/news/story", [("id", "123"), ("utm_campaign", "test")], None)
  const STORY_NORMALIZED: Url := Url(false, "https:", "", "", "example.com", "", "/news/story", [("id", "123")], None)

  /** Host case and tracking parameters are gone from both records; both normalise alike. */
  lemma TrackingParamsExample()
    ensures NormalizeRecord(STORY_A) == STORY_NORMALIZED
    ensures NormalizeRecord(STORY_B) == STORY_NORMALIZED
  {
    assert ToLower("Example.com") == "example.com";
    assert ToLower("https:") == "https:";
    assert ToLower("example.com") == "example.com";
    assert IsTrackingKey("utm_source") by { assert ToLower("utm_source") == "utm_source"; }
    assert IsTrackingKey("utm_campaign") by { assert ToLower("utm_campaign") == "utm_campaign"; }
    assert !IsTrackingKey("id") by { assert ToLower("id") == "id"; }
    assert FilterTracking([("utm_source", "x"), ("id", "123")]) == [("id", "123")];
    assert FilterTracking([("id", "123"), ("utm_campaign", "test")]) == [("id", "123")];
  }

  /** `mailto:a/` and `mailto:a`: URLs with opaque paths, one with a trailing slash. */
  const MAILTO_SLASH: Url := Url(true, "mailto:", "", "", "", "", "a/", [], None)
  const MAILTO_PLAIN: Url := Url(true, "mailto:", "", "", "", "", "a", [], None)

  /** An opaque path keeps its trailing slash, so these two records stay apart. */
  lemma OpaquePathKeepsSlash()
    ensures NormalizeRecord(MAILTO_SLASH).pathname == "a/"
    ensures NormalizeRecord(MAILTO_SLASH) != NormalizeRecord(MAILTO_PLAIN)
    ensures !SameUpToNoise(MAILTO_SLASH, MAILTO_PLAIN)
  {
    assert NormalizeRecord(MAILTO_PLAIN).pathname == "a";
  }

  /** The unit test's two URL texts, written as scheme, host, path and query. */
  const STORY_A_TEXT: string := "https://" + "Example.com" + "/news/story" + "?utm_source=x&id=123"
  const STORY_B_TEXT: string := "https://" + "example.com" + "/news/story" + "?id=123&utm_campaign=test"

  lemma StoryTextsTrimmed()
    ensures Trim(STORY_A_TEXT) == STORY_A_TEXT && !AllWhitespace(STORY_A_TEXT)
    ensures Trim(STORY_B_TEXT) == STORY_B_TEXT && !AllWhitespace(STORY_B_TEXT)
  {
    var a := STORY_A_TEXT;
    var b := STORY_B_TEXT;
    assert a[0] == 'h' && a[|a| - 1] == '3';
    assert b[0] == 'h' && b[|b| - 1] == 't';
    TrimOfTrimmed(a);
    TrimOfTrimmed(b);
  }

  /** The unit test's two story URLs normalise alike whenever the parser yields their records. */
  lemma TrackingParamsSameUrl(codec: UrlCodec)
    requires codec.parse(STORY_A_TEXT) == Some(STORY_A)
    requires codec.parse(STORY_B_TEXT) == Some(STORY_B)
    ensures NormalizeArticleUrl(STORY_A_TEXT, codec) == codec.serialize(STORY_NORMALIZED)
    ensures NormalizeArticleUrl(STORY_B_TEXT, codec) == codec.serialize(STORY_NORMALIZED)
  {
    StoryTextsTrimmed();
    TrackingParamsExample();
    NormalizeParsed(STORY_A_TEXT, codec, STORY_A);
    NormalizeParsed(STORY_B_TEXT, codec, STORY_B);
  }

  /** A URL text without surrounding whitespace that parses normalises to its parsed record's normal form. */
  lemma NormalizeParsed(raw: string, codec: UrlCodec, u: Url)
    requires Trim(raw) == raw && !AllWhitespace(raw)
    requires codec.parse(raw) == Some(u)
    ensures NormalizeArticleUrl(raw, codec) == codec.serialize(NormalizeRecord(u))
  {
  }

  /** ... and so the two articles of that test get one id. */
  lemma TrackingParamsSameId(codec: UrlCodec)
    requires codec.parse(STORY_A_TEXT) == Some(STORY_A)
    requires codec.parse(STORY_B_TEXT) == Some(STORY_B)
    ensures CreateStableNewsId(RawArticle(Some("A"), Some(STORY_A_TEXT), Some("2026-02-22T00:00:00Z"), None), codec)
            == CreateStableNewsId(RawArticle(Some("A"), Some(STORY_B_TEXT), Some("2026-02-22T00:00:00Z"), None), codec)
  {
    TrackingParamsSameUrl(codec);
    SameUrlSameId(Some("A"), STORY_A_TEXT, STORY_B_TEXT, Some("2026-02-22T00:00:00Z"), None, codec);
  }

  /** Two articles differing only in URL texts that normalise alike get one id. */
  lemma SameUrlSameId(title: Option<string>, url1: string, url2: string, date: Option<string>, source: Option<Source>,
                      codec: UrlCodec)
    requires NormalizeArticleUrl(url1, codec) == NormalizeArticleUrl(url2, codec)
    ensures CreateStableNewsId(RawArticle(title, Some(url1), date, source), codec)
            == CreateStableNewsId(RawArticle(title, Some(url2), date, source), codec)
  {
    var a1 := RawArticle(title, Some(url1), date, source);
    var a2 := RawArticle(title, Some(url2), date, source);
    assert OrElse(a1.url, "") == url1;
    assert OrElse(a2.url, "") == url2;
  }

  /** A removed title or a missing URL is rejected. */
  lemma InvalidItemsExample(now: string, codec: UrlCodec)
    ensures ToNewsItem(RawArticle(Some("[Removed]"), Some("https://site.com/a"), None, None), now, codec) == None
    ensures ToNewsItem(RawArticle(Some("No URL"), None, None, None), now, codec) == None
  {
  }

  /** A run of rejected articles contributes nothing. */
  lemma {:induction false} ValidItemsNone(articles: seq<RawArticle>, i: nat, convert: RawArticle -> Option<NewsItem>)
    requires i <= |articles|
    requires forall k :: 0 <= k < i ==> convert(articles[k]).None?
    ensures ValidItems(articles[..i], convert) == []
  {
    if i > 0 {
      ValidItemsNone(articles, i - 1, convert);
      ValidItemsStep(articles, i - 1, convert);
    } else {
      assert articles[..0] == [];
    }
  }

  /** The first accepted article gives the first valid item. */
  lemma ValidItemsFirst(articles: seq<RawArticle>, j: nat, convert: RawArticle -> Option<NewsItem>)
    requires j < |articles|
    requires forall k :: 0 <= k < j ==> convert(articles[k]).None?
    requires convert(articles[j]).Some?
    ensures ValidItems(articles, convert) != [] && ValidItems(articles, convert)[0] == convert(articles[j]).value
  {
    ValidItemsNone(articles, j, convert);
    ValidItemsStep(articles, j, convert);
    ValidItemsPrefix(articles, j + 1, convert);
  }

  /** A non-blank URL always normalises to non-empty text when the serialiser never yields "". */
  lemma NormalizeNonEmpty(rawUrl: string, codec: UrlCodec)
    requires !AllWhitespace(rawUrl)
    requires forall u :: codec.serialize(u) != []
    ensures NormalizeArticleUrl(rawUrl, codec) != []
  {
  }

  /**
   * The page-size unit test: a removed article, one without URL, then usable ones (the test
   * uses "https://site.com/1" .. "/3" and the titles "Valid 1", "Valid 2"); with page size 1
   * the first two are skipped and the third is the whole result.
   */
  lemma PageSizeOneExample(articles: seq<RawArticle>, valid1: string, url2: string, now: string, codec: UrlCodec)
    requires |articles| >= 3
    requires articles[0].title == Some(REMOVED_TITLE)
    requires articles[1].url == None
    requires articles[2] == RawArticle(Some(valid1), Some(url2), None, Some(Source(Some("Site"))))
    requires valid1 != [] && valid1 != REMOVED_TITLE && !AllWhitespace(url2)
    requires forall u :: codec.serialize(u) != []
    ensures ReferenceMapping(articles, 1, Converter(now, codec))
            == [NewsItem(NormalizeArticleUrl(url2, codec), valid1, NormalizeArticleUrl(url2, codec), "Site", now)]
  {
    var convert := Converter(now, codec);
    var item := NewsItem(NormalizeArticleUrl(url2, codec), valid1, NormalizeArticleUrl(url2, codec), "Site", now);
    assert convert(articles[0]).None? && convert(articles[1]).None?;
    assert convert(articles[2]) == Some(item) by {
      NormalizeNonEmpty(url2, codec);
      assert url2 != [];
      assert SourceNameOr(articles[2], UNKNOWN_SOURCE) == "Site";
      Accepted(articles[2], now, codec);
    }
    ThirdFillsPageOfOne(articles, convert, item);
  }

  /** The page-of-one mapping when the third article is the first one accepted. */
  lemma ThirdFillsPageOfOne(articles: seq<RawArticle>, convert: RawArticle -> Option<NewsItem>, item: NewsItem)
    requires |articles| >= 3
    requires convert(articles[0]).None? && convert(articles[1]).None? && convert(articles[2]) == Some(item)
    ensures ReferenceMapping(articles, 1, convert) == [item]
  {
    FirstAcceptedFillsPageOfOne(articles, 2, convert);
  }

  /** The item `toNewsItem` builds from an acceptable article. */
  lemma Accepted(a: RawArticle, now: string, codec: UrlCodec)
    requires Present(a.title) && Present(a.url) && a.title.value != REMOVED_TITLE
    requires NormalizeArticleUrl(a.url.value, codec) != []
    ensures ToNewsItem(a, now, codec)
            == Some(NewsItem(NormalizeArticleUrl(a.url.value, codec), a.title.value, NormalizeArticleUrl(a.url.value, codec),
                             SourceNameOr(a, UNKNOWN_SOURCE), OrElse(a.publishedAt, now)))
  {
  }

  /** On a page of one, the first article `convert` accepts is the whole result. */
  lemma FirstAcceptedFillsPageOfOne(articles: seq<RawArticle>, j: nat, convert: RawArticle -> Option<NewsItem>)
    requires j < |articles|
    requires forall k :: 0 <= k < j ==> convert(articles[k]).None?
    requires convert(articles[j]).Some?
    ensures ReferenceMapping(articles, 1, convert) == [convert(articles[j]).value]
  {
    ValidItemsFirst(articles, j, convert);
    MappingFirstItem(articles, 1, convert);
  }

  /** The story record of the duplicate unit test, with and without its `utm_source` parameter. */
  const STORY_TRACKED: Url := Url(false, "https:", "", "", "site.com", "", "/story", [("utm_source", "a")], None)
  const STORY_PLAIN: Url := Url(false, "https:", "", "", "site.com", "", "/story", [], None)

  lemma DuplicateTestUrls(tracked: string, plain: string, codec: UrlCodec)
    requires !AllWhitespace(tracked) && !AllWhitespace(plain)
    requires forall u :: codec.serialize(u) != []
    requires codec.parse(Trim(tracked)) == Some(STORY_TRACKED) && codec.parse(Trim(plain)) == Some(STORY_PLAIN)
    ensures NormalizeArticleUrl(tracked, codec) == NormalizeArticleUrl(plain, codec) != []
  {
    StoryRecordsSameUpToNoise();
    NormalizeIgnoresNoise(tracked, plain, codec);
    NormalizeNonEmpty(plain, codec);
  }

  lemma StoryRecordsSameUpToNoise()
    ensures SameUpToNoise(STORY_TRACKED, STORY_PLAIN)
  {
    assert IsTrackingKey("utm_source") by { assert ToLower("utm_source") == "utm_source"; }
    assert FilterTracking([("utm_source", "a")]) == [];
  }

  /**
   * The duplicate unit test: two articles whose URLs differ only by `utm_source`; the second
   * is dropped and the result is the first one's item.
   */
  lemma DuplicateExample(articles: seq<RawArticle>, tracked: string, plain: string, now: string, codec: UrlCodec)
    requires |articles| == 2
    requires Present(articles[0].title) && articles[0].title.value != REMOVED_TITLE && articles[0].url == Some(tracked)
    requires Present(articles[1].title) && articles[1].title.value != REMOVED_TITLE && articles[1].url == Some(plain)
    requires !AllWhitespace(tracked) && !AllWhitespace(plain)
    requires forall u :: codec.serialize(u) != []
    requires codec.parse(Trim(tracked)) == Some(STORY_TRACKED) && codec.parse(Trim(plain)) == Some(STORY_PLAIN)
    ensures ToNewsItem(articles[0], now, codec).Some?
    ensures ReferenceMapping(articles, 10, Converter(now, codec)) == [ToNewsItem(articles[0], now, codec).value]
  {
    var convert := Converter(now, codec);
    var c1 := ToNewsItem(articles[0], now, codec);
    var c2 := ToNewsItem(articles[1], now, codec);
    assert c1.Some? && c2.Some? && c1.value.id == c2.value.id by {
      DuplicateTestUrls(tracked, plain, codec);
    }
    assert convert(articles[0]) == c1 && convert(articles[1]) == c2;
    SameIdPairMapsToFirst(articles, convert, c1.value, c2.value);
  }

  /** Two accepted articles with one id map to the first one's item. */
  lemma SameIdPairMapsToFirst(articles: seq<RawArticle>, convert: RawArticle -> Option<NewsItem>, x1: NewsItem, x2: NewsItem)
    requires |articles| == 2
    requires convert(articles[0]) == Some(x1) && convert(articles[1]) == Some(x2) && x1.id == x2.id
    ensures ReferenceMapping(articles, 10, convert) == [x1]
  {
    assert ValidItems(articles, convert) == [x1, x2] by {
      ValidItemsStep(articles, 0, convert);
      ValidItemsStep(articles, 1, convert);
      assert articles[..0] == [];
      assert articles[..2] == articles;
    }
    assert DedupById([x1, x2]) == [x1] by {
      assert [x1] + [x2] == [x1, x2];
      DedupStep([x1], x2);
      assert [] + [x1] == [x1];
      DedupStep([], x1);
    }
  }
}
