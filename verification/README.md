# EllieBellie news core, modelled in Dafny

EllieBellie is a news-reader app. This project models its data core:

- **Article identity** (`lib/newsSchema.ts`): canonical article URLs with the fragment, scheme and host case, tracking query parameters and one trailing slash removed; stable ids (the canonical URL, else `generated:` plus a 32-bit rolling hash of title and date); validation of raw feed records; and the batch mapper that keeps the first item of each id and stops at the page size.
- **Headline provider** (`lib/newsProvider.ts`): classification of response bodies; the provider's own article mapper; the endpoint list (the deployed `/news.json` snapshot, then the live NewsAPI when a key exists on web, the live API alone elsewhere); the query each request carries; and the fallback loop with its error messages.
- **Bookmark store** (`lib/savedNews.ts`): the id a saved item is filed under, and how the saved map is read from and written to key-value storage.
- **Analytics** (`lib/analytics.ts`): reading the stored event buffer, the buffer sink that keeps the 200 most recent events, and the client that hands one event to every sink while swallowing a sink's failure.

Everything the core reaches outside itself is a parameter:

- The device's key-value storage is a `map<string, string>` (`Storage.Store`).
- `JSON.parse`/`JSON.stringify` are an abstract `Json.Codec`. Round trips are assumed only where a lemma's `requires` says so.
- The WHATWG URL parser and serialiser are an abstract `NewsSchema.UrlCodec`.
- `fetch` is a function from a request (endpoint plus query pairs) to an outcome.
- `Date.now()` and `new Date().toISOString()` are values passed in.

Files, one module each: `wrappers.dfy` (Option, Result), `seqs.dfy` (subsequences, filter, JavaScript `slice`, `Math.min`), `text.dfy` (`trim`, `trimStart`, `toLowerCase`, `includes`), `numerals.dfy` (`toString(radix)`), `hash.dfy`, `json.dfy`, `storage.dfy` (the key-value store), `articles.dfy` (the raw article record), `news_schema.dfy`, `saved_news.dfy`, `news_provider.dfy`, `analytics.dfy`.

## Model

| member | source | states |
|---|---|---|
| Hash.ToInt32 | lib/newsSchema.ts:24 | `hash \|= 0` yields a signed 32-bit value congruent to its input modulo 2^32, and leaves 32-bit values unchanged |
| Hash.CodeUnits | lib/newsSchema.ts:22-23 | the string as the UTF-16 code units that `length` counts and `charCodeAt` reads; each unit is below 2^16 and there are at least as many units as characters |
| Hash.CodeUnitsBmp | lib/newsSchema.ts:22-23 | for characters of the Basic Multilingual Plane, the units are the character codes one for one |
| Hash.CodeUnitsAstral | lib/newsSchema.ts:22-23 | a character above U+FFFF becomes a surrogate pair: a high unit in D800-DBFF, a low unit in DC00-DFFF, which recombine to the character |
| Hash.CodeUnitsConcat | lib/newsSchema.ts:22-23 | the units of a concatenation are the units of the parts, concatenated |
| Hash.Step | lib/newsSchema.ts:23-24 | one loop step `(hash << 5) - hash + unit` followed by `hash \|= 0` leaves a signed 32-bit value |
| Hash.StepIsTimes31 | lib/newsSchema.ts:23-24 | one loop step `(hash << 5) - hash + unit`, wrapped, is multiplication by 31 plus the unit, wrapped |
| Hash.HashStateIsWrappedPoly | lib/newsSchema.ts:21-25 | the loop's state, wrapped after every step, equals the base-31 polynomial of the units wrapped once at the end |
| Hash.SimpleHash | lib/newsSchema.ts:20-27 | the result is non-empty lower-case hex digits with no leading zero unless it is "0", whose value is the absolute value of the wrapped polynomial, at most 2^31 |
| Hash.SimpleHashLoop | lib/newsSchema.ts:20-27 | the loop as written computes `SimpleHash` |
| Numerals.ToDigits | lib/newsSchema.ts:26 | `toString(radix)` of a natural number: a non-empty digit string with no leading zero unless the number is 0 |
| Numerals.FromToDigits | lib/newsSchema.ts:26 | reading the digits back gives the number |
| Numerals.Hex | lib/newsSchema.ts:26 | `toString(16)`: non-empty hex digits with no leading zero unless the number is 0, whose value is the number |
| Numerals.CanonicalDigitsUnique | lib/newsSchema.ts:26 | a non-empty digit string without a leading zero (other than "0" itself) is the `toString(radix)` of its own value, so the text of a number is unique |
| Numerals.HexUnique | lib/newsSchema.ts:26 | any non-empty hex string without a leading zero whose value is n is exactly `toString(16)` of n |
| Numerals.Decimal | lib/newsProvider.ts:81 | `String(n)` starts with '-' exactly for negative n, and the digits after any sign are non-empty with no leading zero unless n is 0 |
| Numerals.DecimalRoundTrip | lib/newsProvider.ts:81 | the decimal text of any integer is digits after an optional '-' and parses back to that integer |
| Text.TrimStart | lib/newsProvider.ts:40 | `trimStart` drops exactly a leading run of whitespace and leaves a string that does not start with whitespace |
| Text.TrimEnd | lib/newsSchema.ts:30 | `trimEnd` drops exactly a trailing run of whitespace and leaves a string that does not end with whitespace |
| Text.Trim | lib/newsSchema.ts:30 | `trim` leaves neither leading nor trailing whitespace |
| Text.TrimPadded | lib/newsSchema.ts:30 | trimming whitespace + t + whitespace gives t, for any trimmed t |
| Text.TrimEmptyIff | lib/newsSchema.ts:30-31 | the trimmed text is empty exactly when the input is all whitespace |
| Text.TrimIgnoresPadding | lib/savedNews.ts:14 | extra whitespace on either side does not change the trimmed text |
| Text.TrimStartIgnoresPadding | lib/newsProvider.ts:40 | extra leading whitespace does not change what `trimStart` leaves |
| Text.ToLower | lib/newsSchema.ts:36-37 | `toLowerCase` keeps the length, lower-cases each ASCII letter and leaves every other character alone |
| Text.ToLowerIdempotent | lib/newsSchema.ts:50 | lower-casing twice is lower-casing once |
| Text.ToLowerOfLower | lib/savedNews.ts:14 | text with no upper-case ASCII letter is unchanged by lower-casing |
| Text.TrimToLower | lib/savedNews.ts:14 | trimming and lower-casing commute |
| Text.ContainsIff | lib/newsProvider.ts:40 | `includes` holds exactly when the text occurs at some position |
| Seqs.Filter | lib/newsProvider.ts:50 | `filter` keeps exactly the elements the test accepts, with their counts, in their original order |
| Seqs.FilterAllKept | lib/analytics.ts:31 | filtering a sequence whose every element passes changes nothing |
| Seqs.SliceIndex | lib/newsProvider.ts:51 | the index `slice` resolves a bound to: clamped to the length, and a negative bound counts from the end |
| Seqs.SliceLast | lib/analytics.ts:50 | `slice(-n)` is the suffix of length min(length, n) |
| Seqs.SliceLastAppend | lib/analytics.ts:48-51 | trimming to the last n before appending more does not change the last n of the whole |
| Seqs.PushAllKeepsLast | lib/analytics.ts:48-51 | pushing one element at a time and trimming after each push leaves the last n of everything pushed |
| Articles.OrElse | lib/newsSchema.ts:58 | `s \|\| fallback`: the string when it is present and non-empty, else the fallback |
| Articles.SourceNameOr | lib/newsSchema.ts:72 | `article.source?.name \|\| fallback`: the name when the source has a non-empty one, else the fallback |
| NewsSchema.TrackingKeyIgnoresCase | lib/newsSchema.ts:41 | whether a key is tracking depends only on its lower-cased spelling |
| NewsSchema.TrackingKeyExamples | lib/newsSchema.ts:18 | `UTM_Source`, `gclid` and `FBCLID` are tracking keys; `id` and `utm` are not |
| NewsSchema.FilterTracking | lib/newsSchema.ts:39-44 | no kept parameter has a tracking key in any letter case; every other parameter is kept, with its count and in its order |
| NewsSchema.StripTrailingSlash | lib/newsSchema.ts:46 | one trailing '/' is removed unless the path is exactly "/"; otherwise the path is unchanged |
| NewsSchema.StripOneSlash | lib/newsSchema.ts:46 | a path and the same path plus one slash normalise alike |
| NewsSchema.NormalizeRecord | lib/newsSchema.ts:35-46 | the fragment is cleared, scheme and host lower-cased, tracking parameters dropped; a hierarchical path loses one trailing slash, an opaque path (where the pathname setter does nothing) is kept; credentials and port stay |
| NewsSchema.OpaquePathKeepsSlash | lib/newsSchema.ts:46 | `mailto:a/` keeps its slash, so it and `mailto:a` normalise differently and are not equal up to noise |
| NewsSchema.NormalizeArticleUrl | lib/newsSchema.ts:29-52 | "" for blank input; the lower-cased trimmed text when it does not parse; otherwise the serialised normal form of the parsed URL |
| NewsSchema.NormalizeIgnoresNoise | lib/newsSchema.ts:29-52 | URLs whose parses differ only in fragment, scheme or host case, tracking parameters and, for a hierarchical path, a trailing slash normalise to the same text |
| NewsSchema.CreateStableNewsId | lib/newsSchema.ts:54-60 | the id is never empty: the normalised URL when that is non-empty, else `generated:` plus the hash of `title\|date` with their defaults |
| NewsSchema.IdIgnoresNoise | lib/newsSchema.ts:54-56 | articles whose URLs agree up to that noise (a trailing slash only on a hierarchical path) get one id, whatever their titles and dates |
| NewsSchema.GeneratedIdDependsOnTitleAndDate | lib/newsSchema.ts:57-59 | without a URL, articles with the same title and date collide, and the id starts with `generated:` |
| NewsSchema.ToNewsItem | lib/newsSchema.ts:62-75 | None exactly for a missing or empty title or URL, the `[Removed]` title or a URL that normalises to ""; otherwise the item's fields, with its id equal to its URL |
| NewsSchema.ValidItemsSound | lib/newsSchema.ts:81-83 | every valid item is the conversion of some input article |
| NewsSchema.ValidItemsPrefix | lib/newsSchema.ts:81-83 | the valid items of a prefix of the input are a prefix of the valid items |
| NewsSchema.DedupById | lib/newsSchema.ts:84-86 | dropping repeated ids keeps every id once, the ids pairwise distinct, and the order |
| NewsSchema.DedupKeepsFirst | lib/newsSchema.ts:84-86 | the earliest item carrying each id is the one kept |
| NewsSchema.DedupPrefix | lib/newsSchema.ts:81-88 | the loop never revises what it kept: dedup of a prefix is a prefix of dedup of the whole |
| NewsSchema.MapArticlesToNewsItems | lib/newsSchema.ts:77-91 | the loop equals the reference description (valid items, first of each id, at most the page size, and at least one item even for a page size below 1), with distinct ids |
| NewsSchema.MapWith | lib/newsSchema.ts:78-90 | the same loop for any conversion function, with its `seen` set, `continue`s and early `break` |
| NewsSchema.MappingShape | lib/newsSchema.ts:77-91 | the result has distinct ids, is an order-preserving selection of the valid items and respects the page bound; a short page is every id's first item |
| NewsSchema.MappingFirstItem | lib/newsSchema.ts:86-87 | with a page size of 1 or less the result is exactly the first valid item |
| NewsSchema.MappingKeepsFirstOccurrences | lib/newsSchema.ts:81-88 | when the page is not filled, every id's earliest valid item is in the result |
| NewsSchema.TrackingParamsExample | __tests__/newsSchema.test.ts:4-12 | the two story URLs of the test normalise to the same record, `https://example.com/news/story?id=123` |
| NewsSchema.TrackingParamsSameUrl | __tests__/newsSchema.test.ts:12 | given the parser's records for the two texts, both normalise to that record's serialisation |
| NewsSchema.TrackingParamsSameId | __tests__/newsSchema.test.ts:8-11 | the two test articles get one id |
| NewsSchema.PageSizeOneExample | __tests__/newsSchema.test.ts:15-29 | with page size 1 the removed and URL-less articles are skipped and the third article's item, id equal to its URL, is the whole result |
| NewsSchema.DuplicateExample | __tests__/newsSchema.test.ts:31-41 | two articles whose URLs differ only by `utm_source` yield one item, the first article's |
| NewsSchema.InvalidItemsExample | __tests__/newsSchema.test.ts:43-46 | a removed title or a missing URL gives null |
| SavedNews.GetNewsItemId | lib/savedNews.ts:14 | the id is trimmed, has no upper-case ASCII letter, is no longer than the URL, and is empty exactly for a blank URL |
| SavedNews.IdIgnoresPadding | lib/savedNews.ts:14 | surrounding whitespace does not change the id |
| SavedNews.IdIgnoresCase | lib/savedNews.ts:14 | URLs equal after lower-casing share an id |
| SavedNews.IdIdempotent | lib/savedNews.ts:14 | an id is its own id |
| SavedNews.IdOfNormalUrl | lib/savedNews.ts:14 | a trimmed URL without upper-case ASCII letters is its own id |
| SavedNews.IdOfPaddedUrl | lib/savedNews.ts:14 | a trimmed text between whitespace runs has the lower-cased text as its id |
| SavedNews.IdIgnoresOnlyCase | lib/savedNews.ts:14 | two trimmed URLs share an id exactly when they agree once lower-cased |
| SavedNews.ItemJsonRoundTrip | lib/savedNews.ts:3-8 | a saved item is recovered from its JSON object |
| SavedNews.ReadSavedNews | lib/savedNews.ts:16-30 | empty for a missing key, "", text that does not parse, or a parsed value other than a plain object; a non-empty result is the stored object's entries |
| SavedNews.ReadObject | lib/savedNews.ts:20-23 | a stored text that parses to an object is read as exactly that object's entries |
| SavedNews.WriteSavedNews | lib/savedNews.ts:32-34 | the map's JSON text is stored under the bookmark key and every other key is untouched |
| SavedNews.WriteThenRead | lib/savedNews.ts:16-34 | reading after writing gives back the same ids and, for each, the written item, when the codec reads back what it wrote |
| SavedNews.ReadIgnoresOtherKeys | lib/savedNews.ts:17 | other storage keys do not affect what is read |
| NewsProvider.GetEndpoints | lib/newsProvider.ts:59-66 | web starts with the snapshot and has the live API exactly when a key is present; native has the live API alone; no endpoint twice |
| NewsProvider.EndpointCases | lib/newsProvider.ts:59-66 | the list is exactly [snapshot], [snapshot, live] or [live] in those three cases |
| NewsProvider.RequestedPageSize | lib/newsProvider.ts:71 | three times the page size, capped at 50 |
| NewsProvider.Lookup | lib/newsProvider.ts:79-94 | the value of the first pair with the key, and None exactly when no pair has it |
| NewsProvider.BuildQuery | lib/newsProvider.ts:79-94 | the missing-key error exactly for the live API without a key; otherwise country and the over-fetch page size first, category unless "all", the key only for the live API, the timestamp only for the snapshot |
| NewsProvider.PageSizeParamReadsBack | lib/newsProvider.ts:81 | the page-size parameter is the decimal text of the requested page size |
| NewsProvider.ParseNewsResponse | lib/newsProvider.ts:35-46 | the decoded payload when the body parses; otherwise the HTML error exactly when the content type mentions `text/html` or the body starts with '<' after leading whitespace, else the invalid-response error |
| NewsProvider.ClassificationIgnoresLeadingWhitespace | lib/newsProvider.ts:40 | leading whitespace in a body that does not parse does not change its classification |
| NewsProvider.MapArticles | lib/newsProvider.ts:48-57 | the usable articles sliced to the page size as `slice(0, n)` does, each turned into an item field by field with the defaults |
| NewsProvider.MapArticlesSound | lib/newsProvider.ts:48-57 | every item comes from a usable input article |
| NewsProvider.MapArticlesLength | lib/newsProvider.ts:51 | for a non-negative page size the length is min(page size, usable count), and 0 gives nothing |
| NewsProvider.MapArticlesKeepsDuplicates | lib/newsProvider.ts:48-57 | the provider's mapper does not drop duplicate articles |
| NewsProvider.MapArticlesKeepsUrl | lib/newsProvider.ts:54 | the provider's mapper does not rewrite URLs |
| NewsProvider.UsableMatchesSchema | lib/newsProvider.ts:50 | every article `toNewsItem` accepts passes the provider's filter, and a filtered article is accepted exactly when its URL normalises to something |
| NewsProvider.ToSavedItem | lib/newsProvider.ts:52-56 | a usable article keeps its title and URL; the source name defaults to `Unknown source` and the date to the clock reading, so the date is empty only when both are |
| NewsProvider.RejectionMessage | lib/newsProvider.ts:111 | a rejection with an `Error` records its message, any other value the generic "Unable to load news right now." |
| NewsProvider.Attempt | lib/newsProvider.ts:78-112 | without a key the live attempt fails with the missing-key error and sends nothing; otherwise it sends its query to its endpoint; "too few" only with an endpoint to go, and acceptance before the last endpoint means a full page |
| NewsProvider.OkPayloadWithNext | lib/newsProvider.ts:102-107 | with an endpoint to go, an ok payload moves on exactly when it maps to fewer items than the page size, and is otherwise accepted as mapped |
| NewsProvider.RejectedFailure | lib/newsProvider.ts:110-112 | a rejected request fails the attempt with the `Error`'s message or the generic one |
| NewsProvider.StatusFailure | lib/newsProvider.ts:99-101 | a non-ok response or payload status fails the attempt with the payload's message, else "Failed to fetch top headlines." |
| NewsProvider.ParseFailure | lib/newsProvider.ts:98 | a body that does not parse fails the attempt with its classification message |
| NewsProvider.LastEndpointAccepts | lib/newsProvider.ts:102-109 | on the last endpoint an ok payload is accepted whatever its length |
| NewsProvider.FallbackMovesOn | lib/newsProvider.ts:103-112 | too few items move to the next endpoint keeping the last error; an error moves on recording its message |
| NewsProvider.FallbackBounds | lib/newsProvider.ts:76-113 | the loop keeps the requests already sent as a prefix, adds at most one per remaining endpoint, and keeps the last error or ends with one |
| NewsProvider.FallbackShift | lib/newsProvider.ts:76-113 | the loop only appends to the trace it starts with, and its result does not otherwise depend on it |
| NewsProvider.FallbackTrace | lib/newsProvider.ts:76-113 | the endpoints the loop sends to are the remaining endpoints, in order, each at most once |
| NewsProvider.FailureMessage | lib/newsProvider.ts:115-120 | on web the last error's message, or the generic one when it is missing or empty, followed by the deploy hint; elsewhere the last error as it is, or the generic message |
| NewsProvider.EmptyMessageOnlyReplacedOnWeb | lib/newsProvider.ts:117-119 | an empty last-error message becomes the generic one on web and stays empty on native |
| NewsProvider.Conclude | lib/newsProvider.ts:115-122 | success exactly with a non-empty list; otherwise the last error or the generic message, with the deploy hint on web only |
| NewsProvider.FetchTopHeadlines | lib/newsProvider.ts:69-123 | the call, as the loop followed by the conclusion; a success is never an empty list |
| NewsProvider.FetchTopHeadlinesLoop | lib/newsProvider.ts:69-123 | the loop with `continue` and `break` computes `FetchTopHeadlines`, and a success is never empty |
| NewsProvider.NoRetries | lib/newsProvider.ts:76-113 | one call sends at most one request per endpoint, in the endpoint list's order |
| NewsProvider.RequestsCarryTheirQuery | lib/newsProvider.ts:79-96 | every request sent carries its endpoint's query, so the key goes only to the live API, and always with it |
| NewsProvider.NativeWithoutKey | lib/newsProvider.ts:86-88 | on native without a key the call fails with the missing-key error and sends nothing |
| NewsProvider.FallbackResultFromOneEndpoint | lib/newsProvider.ts:102-109 | the loop's result is the list of the first accepted attempt, never a merge |
| NewsProvider.SuccessFromOneEndpoint | lib/newsProvider.ts:102-122 | a successful call returns the first accepted endpoint's items, a full page unless that endpoint was the last |
| NewsProvider.SnapshotShortLiveAnswers | lib/newsProvider.ts:103-109 | on web with a key, a short snapshot list is passed over and the live list returned after two requests |
| NewsProvider.ShortSnapshotDiscarded | lib/newsProvider.ts:104-117 | a short snapshot list is not kept when the live API then fails |
| NewsProvider.WebAllFail | lib/newsProvider.ts:110-117 | when every web endpoint fails, the call fails with the last error plus the deploy hint |
| NewsProvider.AcceptedEmptyFails | lib/newsProvider.ts:108-117 | an accepted empty list still fails the call, reporting the earlier snapshot error |
| NewsProvider.NativeFailure | lib/newsProvider.ts:119 | on native the last error is reported as it is, without the hint |
| Analytics.NameTextInjective | lib/analytics.ts:3-9 | distinct event names have distinct wire names |
| Analytics.EventJson | lib/analytics.ts:11-15 | an event's JSON object has exactly name, timestamp and payload, with the payload's keys |
| Analytics.EventLikeIff | lib/analytics.ts:31 | `event && typeof event === 'object'` holds exactly for arrays and objects |
| Analytics.ConsoleLineNamesEvent | lib/analytics.ts:42 | two events log the same console line exactly when they have the same name |
| Analytics.SinkTrack | lib/analytics.ts:40-53 | the console sink touches only the console, the buffer sink only the store, a custom sink only what it received |
| Analytics.ReadEvents | lib/analytics.ts:24-38 | empty for a missing key, "", text that does not parse, or a parsed value that is not an array; otherwise an in-order selection of the array's entries, each an object or array |
| Analytics.ReadArray | lib/analytics.ts:30-31 | a stored array is read back as its filtered entries, and every object entry survives |
| Analytics.Appended | lib/analytics.ts:48-50 | after a push and `slice(-200)` the buffer ends with the event, has min(previous + 1, 200) entries, keeps a shorter buffer whole and otherwise drops exactly the oldest overflow |
| Analytics.AppendAllStep | lib/analytics.ts:48-50 | tracking e and then the rest is tracking the rest on the buffer e left |
| Analytics.AppendAllKeepsLast | lib/analytics.ts:48-51 | however many events are tracked one at a time, the buffer holds the last 200 of them all |
| Analytics.BufferTrack | lib/analytics.ts:47-52 | the trimmed buffer's JSON text is stored under the analytics key and every other key is untouched |
| Analytics.TrackThenRead | lib/analytics.ts:24-52 | reading the buffer after tracking gives the previous buffer with the event pushed and trimmed to 200, when the codec reads back what it wrote |
| Analytics.TrackBounded | lib/analytics.ts:22 | after tracking, the buffer holds between 1 and 200 entries and ends with the event |
| Analytics.TrackOverUnreadable | lib/analytics.ts:33-35 | a stored buffer that does not parse is replaced by one holding just the new event |
| Analytics.RunSinks | lib/analytics.ts:73-81 | sinks only add to the console and to what custom sinks received, everything added concerns the same event, and the store changes at most under the analytics key |
| Analytics.ClientTrack | lib/analytics.ts:66-82 | tracking keeps what was logged and delivered before, every new console line is `[analytics] <name>`, everything newly delivered is the event with the given name, time and payload, and storage changes only under the analytics key |
| Analytics.FailureIsAbsence | lib/analytics.ts:75-79 | a sink that throws is as if it were absent: the others run exactly as they would alone, and the call still completes |
| Analytics.WorkingSinksReceive | lib/analytics.ts:73-76 | every custom sink that does not throw receives the event |
| Analytics.SetSinks | lib/analytics.ts:62-64 | the client's sink list becomes the new list |
| Analytics.SetSinksForgetsOld | lib/analytics.ts:62-64 | after `setSinks`, tracking depends only on the new list |
| Analytics.NoSinksNoEffect | lib/analytics.ts:73-81 | a client with no sinks changes nothing |
| Analytics.TrackEventEffects | lib/analytics.ts:89-92 | through the app's client, a working console logs `[analytics] <name>` and a working buffer stores the event, each whether or not the other throws |
| Analytics.TrackEvent | lib/analytics.ts:89-92 | through the app's client, only the analytics key of storage changes and every new console line is `[analytics] <name>` |

## Left out

- WHATWG URL parsing and serialisation are abstract (`UrlCodec`). So the model cannot show concrete serialised text, such as the absence of a lone `?`. The unit-test lemmas take the parser's records for the test URLs as preconditions.
- Text.ToLower: models `toLowerCase` for ASCII letters only; other Unicode case mappings (and the few that change length) are not modelled.
- SavedNews.GetNewsItemId: the id is lower-cased in ASCII only, so ids of URLs with non-ASCII capitals differ from the source's.
- SavedNews.IdIgnoresCase: "equal after lower-casing" means ASCII lower-casing, which identifies fewer URLs than `toLowerCase` does.
- NewsSchema.NormalizeArticleUrl: the fallback for text that does not parse is lower-cased in ASCII only. The WHATWG setters' side effects on opaque paths (the `hash`/`search` setters stripping trailing spaces) are not modelled.
- JSON text is abstract (`Json.Codec`). In the provider, the decoder yields a typed payload record. A body that parses to `null`, to a non-object, or to fields of the wrong JSON type is not modelled. In the source those cases surface as a `TypeError` message recorded as the last error.
- `readSavedNews` returns the stored object's entries unchecked, as the source does. The model does not describe what the app then does with entries that are not saved items.
- `URLSearchParams` serialisation of the query (percent-encoding) is not modelled: a request carries its query as ordered pairs.
- `Promise.all` concurrency in `AnalyticsClient.track`: the sinks run one after another, each seeing the previous sinks' effects. Concurrent `track` calls racing on the buffer's read-modify-write are not modelled either.
- Analytics.RunSinks: a sink that throws is taken to have no effect. For the buffer sink, both of its storage calls can throw, and neither leaves a partial write. For a custom sink that writes something and then throws, the partial write is not modelled.
- `trackAsync` and `trackEventAsync` fire and forget the same call as `track`. The model has no separate member for them because their effects are `track`'s.
- `ConsoleAnalyticsSink` also logs the payload object. The model records only the line `[analytics] <name>`.
- The event's `timestamp` and each article's `new Date().toISOString()` are parameters. The provider's mapper gets one `nowIso` per call, so it cannot show different timestamps within one batch.
- `pageSize` is taken to be an integer. Fractional or `NaN` page sizes are not modelled.
- Network failures, response-body read failures and non-`Error` rejections are folded into `Outcome.Rejected`. The optional message is the `Error`'s.
- Retries, timeouts and backoff do not exist in `lib/newsProvider.ts`, and the model follows the code: one request per endpoint. The provider's own mapper does no deduplication or URL normalisation either; `MapArticlesKeepsDuplicates` and `MapArticlesKeepsUrl` state this.
- Two behaviours of the code are modelled as written:
  - a short snapshot list is discarded when the live API then fails;
  - an accepted empty list reports the earlier error, or the generic message.
