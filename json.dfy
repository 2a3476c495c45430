/**
 * The part of Python's `json` module the application relies on, as an interface: the decoder and
 * the two encodings are not modelled, they are passed in as a `Codec`, and the formatter, the
 * classifier and the request preparation are verified for every choice of them.
 */
module Json {
  /** A decoded JSON document; only its outer shape (object or not) matters to the callers. */
  datatype Json =
    | JNull
    | JBool(b: bool)
    | JNumber(n: real)
    | JString(s: string)
    | JArray(items: seq<Json>)
    | JObject(members: seq<(string, Json)>)

  /**
   * Why `json.loads` raised. `DecodeError` is `json.JSONDecodeError`; `OtherFailure` is any other
   * exception (a recursion error on very deep nesting, say). Each carries `str(e)`.
   */
  datatype LoadError = DecodeError(message: string) | OtherFailure(message: string)

  datatype Loaded = Parsed(value: Json) | LoadFailed(error: LoadError)

  /**
   * `json.loads`, `json.dumps(v, indent=2, ensure_ascii=False)` and
   * `json.dumps(v, separators=(',', ':'), ensure_ascii=False)`.
   */
  datatype Codec = Codec(loads: string -> Loaded, dumpsIndented: Json -> string, dumpsCompact: Json -> string)

  /** `isinstance(v, dict)` */
  predicate IsDict(v: Json)
  {
    v.JObject?
  }
}
