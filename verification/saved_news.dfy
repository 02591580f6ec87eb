/**
 * The bookmark store: the id a saved item is filed under, and how the saved map is read from
 * and written to the device's key-value storage as JSON text.
 */
module SavedNews {
  import opened Wrappers
  import opened Text
  import opened Json
  import opened Storage

  const SAVED_NEWS_STORAGE_KEY: string := "elliebellie.savedNews.v1"

  /** The record the feed hands to the screens and the bookmark store keeps. */
  datatype SavedNewsItem = SavedNewsItem(title: string, url: string, sourceName: string, publishedAt: string)

  /** `getNewsItemId`: the URL trimmed and lower-cased. */
  function GetNewsItemId(url: string): (id: string)
    ensures |id| <= |url|
    ensures IsTrimmed(id)
    ensures forall i :: 0 <= i < |id| ==> !('A' <= id[i] <= 'Z')
    ensures id == [] <==> AllWhitespace(url)
  {
    TrimEmptyIff(url);
    LowerKeepsTrimmed(Trim(url));
    ToLower(Trim(url))
  }

  /** Surrounding whitespace does not change the id. */
  lemma IdIgnoresPadding(a: string, url: string, c: string)
    requires AllWhitespace(a) && AllWhitespace(c)
    ensures GetNewsItemId(a + url + c) == GetNewsItemId(url)
  {
    TrimIgnoresPadding(a, url, c);
  }

  /** URLs that agree once lower-cased share an id. */
  lemma IdIgnoresCase(url1: string, url2: string)
    requires ToLower(url1) == ToLower(url2)
    ensures GetNewsItemId(url1) == GetNewsItemId(url2)
  {
    TrimToLower(url1);
    TrimToLower(url2);
  }

  /** An id is its own id. */
  lemma IdIdempotent(url: string)
    ensures GetNewsItemId(GetNewsItemId(url)) == GetNewsItemId(url)
  {
    var id := GetNewsItemId(url);
    TrimOfTrimmed(id);
    ToLowerIdempotent(Trim(url));
  }

  /** A URL already trimmed and free of upper-case letters is its own id. */
  lemma IdOfNormalUrl(u: string)
    requires IsTrimmed(u)
    requires forall i :: 0 <= i < |u| ==> !('A' <= u[i] <= 'Z')
    ensures GetNewsItemId(u) == u
  {
    TrimOfTrimmed(u);
    ToLowerOfLower(u);
  }

  /**
   * The id of any URL, pinned: a trimmed text `v` between whitespace runs has the id of its
   * lower-case form.
   */
  lemma IdOfPaddedUrl(a: string, v: string, c: string)
    requires AllWhitespace(a) && AllWhitespace(c) && IsTrimmed(v)
    ensures GetNewsItemId(a + v + c) == ToLower(v)
  {
    IdIgnoresPadding(a, v, c);
    TrimOfTrimmed(v);
  }

  /**
   * For URLs without surrounding whitespace, sharing an id means exactly agreeing once
   * lower-cased: the converse of `IdIgnoresCase` holds too.
   */
  lemma IdIgnoresOnlyCase(url1: string, url2: string)
    requires IsTrimmed(url1) && IsTrimmed(url2)
    ensures GetNewsItemId(url1) == GetNewsItemId(url2) <==> ToLower(url1) == ToLower(url2)
  {
    TrimOfTrimmed(url1);
    TrimOfTrimmed(url2);
  }

  /** The JSON object `JSON.stringify` is given for one saved item. */
  function ItemJson(x: SavedNewsItem): Json {
    JObject(map[
      "title" := JString(x.title),
      "url" := JString(x.url),
      "sourceName" := JString(x.sourceName),
      "publishedAt" := JString(x.publishedAt)])
  }

  /** Reads a saved item back out of its JSON object, if it has that shape. */
  function ItemFromJson(j: Json): Option<SavedNewsItem> {
    if j.JObject? && "title" in j.fields && "url" in j.fields && "sourceName" in j.fields && "publishedAt" in j.fields
       && j.fields["title"].JString? && j.fields["url"].JString? && j.fields["sourceName"].JString?
       && j.fields["publishedAt"].JString?
    then Some(SavedNewsItem(j.fields["title"].s, j.fields["url"].s, j.fields["sourceName"].s, j.fields["publishedAt"].s))
    else None
  }

  /** Every saved item can be read back from its JSON object. */
  lemma ItemJsonRoundTrip(x: SavedNewsItem)
    ensures ItemFromJson(ItemJson(x)) == Some(x)
  {
  }

  /** The JSON object for a whole saved map, keyed by item id. */
  function MapJson(m: map<string, SavedNewsItem>): (j: Json)
    ensures j.JObject? && j.fields.Keys == m.Keys
    ensures forall k :: k in m ==> j.fields[k] == ItemJson(m[k])
  {
    JObject(map k | k in m :: ItemJson(m[k]))
  }

  /**
   * `readSavedNews`: an empty map when nothing or "" is stored, when the text does not parse,
   * or when it parses to something other than a plain object (null, an array, a scalar);
   * otherwise the parsed object's entries, unchecked.
   */
  function ReadSavedNews(store: Store, codec: Codec): (r: map<string, Json>)
    ensures SAVED_NEWS_STORAGE_KEY !in store ==> r == map[]
    ensures SAVED_NEWS_STORAGE_KEY in store && store[SAVED_NEWS_STORAGE_KEY] == [] ==> r == map[]
    ensures SAVED_NEWS_STORAGE_KEY in store && codec.parse(store[SAVED_NEWS_STORAGE_KEY]).None? ==> r == map[]
    ensures SAVED_NEWS_STORAGE_KEY in store && codec.parse(store[SAVED_NEWS_STORAGE_KEY]).Some? ==>
              !codec.parse(store[SAVED_NEWS_STORAGE_KEY]).value.JObject? ==> r == map[]
    ensures r != map[] ==>
              && SAVED_NEWS_STORAGE_KEY in store && store[SAVED_NEWS_STORAGE_KEY] != []
              && codec.parse(store[SAVED_NEWS_STORAGE_KEY]) == Some(JObject(r))
  {
    if SAVED_NEWS_STORAGE_KEY !in store || store[SAVED_NEWS_STORAGE_KEY] == [] then map[]
    else
      match codec.parse(store[SAVED_NEWS_STORAGE_KEY])
      case Some(JObject(fields)) => fields
      case _ => map[]
  }

  /** `writeSavedNews`: the map's JSON text under the bookmark key; every other key untouched. */
  function WriteSavedNews(store: Store, m: map<string, SavedNewsItem>, codec: Codec): (s: Store)
    ensures s.Keys == store.Keys + {SAVED_NEWS_STORAGE_KEY}
    ensures s[SAVED_NEWS_STORAGE_KEY] == codec.stringify(MapJson(m))
    ensures forall k :: k in store && k != SAVED_NEWS_STORAGE_KEY ==> s[k] == store[k]
  {
    store[SAVED_NEWS_STORAGE_KEY := codec.stringify(MapJson(m))]
  }

  /** A stored plain object is read back entry for entry. */
  lemma ReadObject(store: Store, codec: Codec, fields: map<string, Json>)
    requires SAVED_NEWS_STORAGE_KEY in store && store[SAVED_NEWS_STORAGE_KEY] != []
    requires codec.parse(store[SAVED_NEWS_STORAGE_KEY]) == Some(JObject(fields))
    ensures ReadSavedNews(store, codec) == fields
  {
  }

  /** Reading after writing yields the written map, when the codec reads back what it wrote. */
  lemma {:induction false} WriteThenRead(store: Store, m: map<string, SavedNewsItem>, codec: Codec)
    requires RoundTrips(codec, MapJson(m))
    ensures ReadSavedNews(WriteSavedNews(store, m, codec), codec).Keys == m.Keys
    ensures forall k :: k in m ==> ItemFromJson(ReadSavedNews(WriteSavedNews(store, m, codec), codec)[k]) == Some(m[k])
  {
    var s := WriteSavedNews(store, m, codec);
    ReadObject(s, codec, MapJson(m).fields);
    forall k | k in m ensures ItemFromJson(MapJson(m).fields[k]) == Some(m[k]) {
      ItemJsonRoundTrip(m[k]);
    }
  }

  /** Other keys of the store do not affect what is read. */
  lemma ReadIgnoresOtherKeys(store: Store, key: string, value: string, codec: Codec)
    requires key != SAVED_NEWS_STORAGE_KEY
    ensures ReadSavedNews(store[key := value], codec) == ReadSavedNews(store, codec)
  {
  }
}
