/** JSON values as Python's `json` module builds and parses them. The text
    format itself is not modelled: serialising and parsing are collaborators
    supplied to the store (see `Memory.Env`). */
module Json {

  /** A decoded JSON value. Object fields keep their insertion order, as a
      Python dict does; numbers are integers only. */
  datatype Json =
    | JNull
    | JBool(b: bool)
    | JNum(n: int)
    | JStr(s: string)
    | JArr(elems: seq<Json>)
    | JObj(fields: seq<(string, Json)>)
}
