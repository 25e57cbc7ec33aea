/** The values `json.loads` produces, as the analyzer sees them. Decoding text
    into these values is a library call and is not modelled. */
module Json {

  datatype JsonValue =
    | JNull
    | JBool(b: bool)
    | JInt(i: int)
    | JFloat(text: string)           // a JSON number with a fraction or exponent; its value is never inspected
    | JString(s: string)
    | JArray(items: seq<JsonValue>)
    | JObject(fields: map<string, JsonValue>)

  /** `d.get(key, default)` on a decoded object. */
  function Get(d: map<string, JsonValue>, key: string, default: JsonValue): JsonValue {
    if key in d then d[key] else default
  }
}
