/**
 * The loosely structured values the tool passes around: JSON documents and
 * the dict-shaped records (Day One entries, photo descriptors) built from them.
 */
module Values {

  datatype Option<T> = None | Some(value: T)

  /** A JSON value as Python's `json` module reads and writes it (numbers are integers here). */
  datatype Json =
    | JNull
    | JBool(b: bool)
    | JNumber(n: int)
    | JString(s: string)
    | JArray(items: seq<Json>)
    | JObject(fields: map<string, Json>)

  /** Python truthiness of a value: `None`, `False`, `0`, `""`, `[]` and `{}` are falsy. */
  predicate Truthy(j: Json) {
    match j
    case JNull => false
    case JBool(b) => b
    case JNumber(n) => n != 0
    case JString(s) => s != ""
    case JArray(items) => items != []
    case JObject(fields) => fields != map[]
  }

  /** A dict with string keys, such as a Day One entry. */
  type Record = map<string, Json>

  /** A Python list of strings as a JSON array. */
  function StringArray(ss: seq<string>): (j: Json)
    ensures j.JArray? && |j.items| == |ss|
    ensures forall i :: 0 <= i < |ss| ==> j.items[i] == JString(ss[i])
  {
    JArray(seq(|ss|, i requires 0 <= i < |ss| => JString(ss[i])))
  }

  predicate AllStrings(items: seq<Json>) {
    forall i :: 0 <= i < |items| ==> items[i].JString?
  }

  /** The strings held by an array of JSON strings. */
  function StringsOf(items: seq<Json>): (ss: seq<string>)
    requires AllStrings(items)
    ensures |ss| == |items|
    ensures forall i :: 0 <= i < |items| ==> items[i] == JString(ss[i])
  {
    seq(|items|, i requires 0 <= i < |items| => items[i].s)
  }

  /** A list of strings survives being stored as a JSON array and read back. */
  lemma StringArrayRoundTrip(ss: seq<string>)
    ensures AllStrings(StringArray(ss).items) && StringsOf(StringArray(ss).items) == ss
    ensures Truthy(StringArray(ss)) <==> ss != []
  {
  }
}
