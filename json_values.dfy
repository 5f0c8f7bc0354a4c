/** Values shared by the schematic and the builder: an optional value and the
    JSON documents that the workspace files and nx.json hold once parsed. */
module JsonValues {

  datatype Option<T> = None | Some(value: T)

  /** A parsed JSON value. Numbers are kept as integers: no number is
      interpreted by this model. */
  datatype Json =
    | JNull
    | JBool(b: bool)
    | JNumber(n: int)
    | JString(s: string)
    | JArray(items: seq<Json>)
    | JObject(fields: map<string, Json>)

  /** The own properties that `{ ...j }` copies out of `j`: the fields of an
      object and nothing for `null`, `undefined` (an absent key), a boolean or a
      number. Spreading a string or an array would copy its indices; configuration
      files never hold those where a spread is applied, and the model copies
      nothing for them. */
  function SpreadOf(j: Option<Json>): (r: map<string, Json>)
  {
    match j
    case Some(JObject(fields)) => fields
    case _ => map[]
  }

  /** Looking a key up in a JSON object. */
  function Get(fields: map<string, Json>, key: string): (r: Option<Json>)
  {
    if key in fields then Some(fields[key]) else None
  }
}
