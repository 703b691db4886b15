/** JSON values as the server hands them to `res.json(...)` and receives them from `JSON.parse`.
    Object members are listed in the order `JSON.parse` returns them and the handlers write them. */
module JsonValues {

  datatype Json =
    | JNull
    | JBool(b: bool)
    | JNumber(n: real)
    | JString(s: string)
    | JArray(items: seq<Json>)
    | JObject(members: seq<(string, Json)>)
}
