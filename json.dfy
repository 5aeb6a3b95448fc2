/** The values `JSON.parse` produces, as the converter sees them. */
module JsonData {
  /**
   * A parsed JSON value. An object holds its entries in the order
   * `Object.entries` lists them. Numbers are kept as reals: the converter
   * only asks for their `typeof`.
   */
  datatype Json =
    | JNull
    | JBool(b: bool)
    | JNumber(n: real)
    | JString(s: string)
    | JArray(items: seq<Json>)
    | JObject(entries: seq<(string, Json)>)
}
