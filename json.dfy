/** The values the story core passes around: an optional result and a
    decoded JSON document as Python's `json` module produces it. */
module Json {

  datatype Option<+T> = None | Some(value: T)

  /** A decoded JSON value: `None`, a `bool`, a number, a `str`, a `list`
      or a `dict` with string keys. */
  datatype Json =
    | JNull
    | JBool(b: bool)
    | JNumber(n: int)
    | JString(s: string)
    | JArray(items: seq<Json>)
    | JObject(fields: map<string, Json>)
}
