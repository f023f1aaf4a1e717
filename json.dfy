/** An abstract JSON value: just enough of the `json` crate's `JsonValue` for a saved game. */
module JsonValues {
  import opened Wrappers

  /** Objects, arrays and strings are kept; null, booleans and numbers are all `Other`. */
  datatype Json = Obj(fields: map<string, Json>) | Arr(items: seq<Json>) | Str(str: string) | Other

  /** The elements of an array; any other value has none, as `JsonValue::members` gives. */
  function Members(v: Json): seq<Json> {
    if v.Arr? then v.items else []
  }

  /** The text of a string value, as `JsonValue::as_str` gives it. */
  function AsStr(v: Json): Option<string> {
    if v.Str? then Some(v.str) else None
  }
}
