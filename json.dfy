/** JSON values as the schema generator produces them and `json.dumps` writes them. */
module Json {

  /** A JSON value. Objects are Python dicts, modelled without their key order. */
  datatype Json =
    | JNull
    | JBool(b: bool)
    | JNum(n: int)
    | JStr(s: string)
    | JArr(elems: seq<Json>)
    | JObj(fields: map<string, Json>)

  /** A JSON object's members: a `Dict[str, Any]` in the script. */
  type Obj = map<string, Json>
}
