/**
 * JavaScript values the ledger handles, and the foreign library functions
 * (SHA-256, JSON.stringify, JSON.parse) as uninterpreted, deterministic
 * functions supplied by the caller.
 */
module JsRuntime {

  /** A property that may be absent from an object. */
  datatype Option<T> = None | Some(value: T)

  /** A property that holds JavaScript `null` or a value. */
  datatype Nullable<T> = Null | Val(value: T)

  /** A JSON value; object members keep their insertion order, which JSON.stringify follows. */
  datatype Json =
    | JNull
    | JBool(b: bool)
    | JNumber(n: real)
    | JString(s: string)
    | JArray(items: seq<Json>)
    | JObject(members: seq<(string, Json)>)

  /**
   * The library functions the core calls. `parse` yields None when JSON.parse
   * throws. `sha256OfUndefined` is the digest SHA256(undefined).toString()
   * returns, which `validate` computes when getBData returned nothing.
   */
  datatype Libraries = Libraries(
    sha256: string -> string,
    stringify: Json -> string,
    parse: string -> Option<Json>,
    sha256OfUndefined: string)
}
