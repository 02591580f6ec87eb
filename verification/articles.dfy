/** The untrusted article record of a headlines feed, shared by the schema and the provider. */
module Articles {
  import opened Wrappers

  datatype Source = Source(name: Option<string>)

  /** One entry of a feed's `articles` array; every field may be missing. */
  datatype RawArticle = RawArticle(
    title: Option<string>,
    url: Option<string>,
    publishedAt: Option<string>,
    source: Option<Source>)

  /** JavaScript truthiness of an optional string: present and non-empty. */
  predicate Present(s: Option<string>) {
    s.Some? && s.value != []
  }

  /** `s || fallback` for an optional string. */
  function OrElse(s: Option<string>, fallback: string): (r: string)
    ensures Present(s) ==> r == s.value
    ensures !Present(s) ==> r == fallback
  {
    if Present(s) then s.value else fallback
  }

  /** `article.source?.name || fallback`. */
  function SourceNameOr(a: RawArticle, fallback: string): (r: string)
    ensures a.source.Some? && Present(a.source.value.name) ==> r == a.source.value.name.value
    ensures !(a.source.Some? && Present(a.source.value.name)) ==> r == fallback
  {
    match a.source
    case Some(src) => OrElse(src.name, fallback)
    case None => fallback
  }

  /** The sentinel title the upstream API gives retracted articles. */
  const REMOVED_TITLE: string := "[Removed]"

  /** The source name an item gets when its article names none. */
  const UNKNOWN_SOURCE: string := "Unknown source"
}
