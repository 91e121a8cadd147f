/**
 * Request payloads after `json.loads`. JSON numbers with a fraction or an
 * exponent (Python floats) are not represented.
 */
module JsonValue {
  datatype Json =
    | JNull
    | JBool(b: bool)
    | JInt(i: int)
    | JStr(s: string)
    | JArr(items: seq<Json>)
    | JObj(fields: map<string, Json>)

  /** A request body: `json.loads` either raised or produced a value. */
  datatype Body = Malformed | Decoded(value: Json)
}
