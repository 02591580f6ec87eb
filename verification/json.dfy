/**
 * JSON values as `JSON.parse` produces them and `JSON.stringify` consumes them. The text
 * format itself is not modelled: a `Codec` pairs an abstract parser (None where `JSON.parse`
 * throws) with an abstract serialiser.
 */
module Json {
  import opened Wrappers

  datatype Json =
    | JNull
    | JBool(b: bool)
    | JNumber(n: real)
    | JString(s: string)
    | JArray(items: seq<Json>)
    | JObject(fields: map<string, Json>)

  /** JavaScript truthiness of a parsed value. */
  predicate Truthy(j: Json) {
    match j
    case JNull => false
    case JBool(b) => b
    case JNumber(n) => n != 0.0
    case JString(s) => s != []
    case _ => true
  }

  /** `typeof j === 'object'`: true of null, arrays and objects. */
  predicate TypeofObject(j: Json) {
    j.JNull? || j.JArray? || j.JObject?
  }

  datatype Codec = Codec(parse: string -> Option<Json>, stringify: Json -> string)

  /** The codec reads back what it wrote for `v`, and the text it wrote is not empty. */
  predicate RoundTrips(codec: Codec, v: Json) {
    codec.parse(codec.stringify(v)) == Some(v) && codec.stringify(v) != []
  }
}
