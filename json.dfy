/**
 * The parsed JSON values the plugin inspects. A translation resource is a JSON
 * object; the plugin only ever asks whether the value under a key is a string,
 * whether it is null, and (for strings) whether it equals a given text.
 */
module Json {

  /** A JSON value as far as the plugin can tell values apart: a string, the
      JSON literal null, or anything else (number, boolean, array, nested object). */
  datatype Value = Str(s: string) | Null | Other

  /** A parsed JSON object: member names mapped to their values. */
  type Object = map<string, Value>

  /** `JSONObject.get`: the value stored under `key`, or null when the key is
      absent, so an absent key and a key holding JSON null look alike. */
  function Get(obj: Object, key: string): (v: Value)
    ensures key in obj ==> v == obj[key]
    ensures key !in obj ==> v == Null
  {
    if key in obj then obj[key] else Null
  }
}
